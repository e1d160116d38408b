/**
 The half-built reply tree of the reader: reply objects whose array slots are filled in place,
 and the task stack that points into them. The relation between stack, objects and values is
 stated over a snapshot of the heap, so each way the reader changes it is one lemma.
 */
module RespTree {
  import opened Bytes
  import opened RespSpec
  import opened RespMachine

  /** A redisReply. The ghost fields say which slot of which array it was made for. */
  class ReplyObject {
    const ty: int
    const integer: int
    const str: seq<byte>
    const elements: int
    const element: array?<ReplyObject?>
    ghost const up: ReplyObject?
    ghost const slot: int
    ghost const depth: nat

    constructor (ty: int, integer: int, str: seq<byte>, elements: int, ghost up: ReplyObject?, ghost slot: int)
      ensures this.ty == ty && this.integer == integer && this.str == str && this.elements == elements
      ensures this.up == up && this.slot == slot && depth == if up == null then 0 else up.depth + 1
      ensures (element == null) == (elements <= 0)
      ensures element != null ==> fresh(element) && element.Length == elements
      ensures element != null ==> forall j :: 0 <= j < elements ==> element[j] == null
    {
      this.ty, this.integer, this.str, this.elements := ty, integer, str, elements;
      this.up, this.slot := up, slot;
      this.depth := if up == null then 0 else up.depth + 1;
      element := null;
      if elements > 0 {
        element := new ReplyObject?[elements](_ => null);
      }
    }

    /** The fields of a reply other than a non-empty array. */
    ghost predicate IsLeaf(v: Reply) {
      match v
      case Str(b) => ty == STRING && str == b
      case Status(b) => ty == STATUS && str == b
      case Error(b) => ty == ERROR && str == b
      case Integer(n) => ty == INTEGER && integer == n
      case Nil => ty == NIL
      case NegArray(n) => ty == ARRAY && elements == n && element == null
      case Array(items) => items == [] && ty == ARRAY && elements == 0 && element == null
    }

    /** This object and everything under it spell out the reply v, with no hole anywhere. */
    ghost predicate Denotes(v: Reply, tree: set<object>)
      reads tree
      decreases v
    {
      && this in tree
      && if v.Array? && v.items != [] then
           && ty == ARRAY && elements == |v.items|
           && element != null && element in tree && element.Length == |v.items|
           && (forall j :: 0 <= j < |v.items| ==> element[j] != null && element[j].Denotes(v.items[j], tree))
         else IsLeaf(v)
    }
  }

  /** x is o or lies under it. */
  ghost predicate Below(x: ReplyObject, o: ReplyObject)
    decreases x.depth
  {
    x == o || (x.up != null && x.up.depth < x.depth && Below(x.up, o))
  }

  /** A redisReadTask; parent is the index of the parent task, or -1. */
  datatype Task = Task(ty: int, elements: int, idx: int, obj: ReplyObject?, parent: int)

  /**
   The stack with its top index, the arrays being filled, the objects made for the unfinished
   reply, what the finished ones denote, and what the slots of each array object hold.
   */
  datatype Snapshot = Snapshot(tasks: seq<Task>, ridx: int, frames: seq<Frame>,
                               objs: set<ReplyObject>, val: map<ReplyObject, Reply>,
                               slots: map<ReplyObject, seq<ReplyObject?>>)

  /** A finished object agrees with its value, slot by slot. */
  ghost predicate Agrees(o: ReplyObject, v: Reply, val: map<ReplyObject, Reply>, slots: map<ReplyObject, seq<ReplyObject?>>)
  {
    if v.Array? && v.items != [] then
      && o.ty == ARRAY && o.elements == |v.items|
      && o in slots && |slots[o]| == |v.items|
      && forall j :: 0 <= j < |v.items| ==> slots[o][j] in val && val[slots[o][j]] == v.items[j]
    else o.IsLeaf(v) && o.element == null
  }

  /** Every object sits in the slot it was made for, and every filled slot holds its own object. */
  ghost predicate Linked(objs: set<ReplyObject>, slots: map<ReplyObject, seq<ReplyObject?>>) {
    && slots.Keys <= objs
    && (forall o {:trigger o.up} :: o in objs && o.up != null ==>
         && o.up in slots && o.depth == o.up.depth + 1
         && 0 <= o.slot < |slots[o.up]| && slots[o.up][o.slot] == o)
    && (forall o, j :: o in slots && 0 <= j < |slots[o]| && slots[o][j] != null ==>
         slots[o][j] in objs && slots[o][j].up == o && slots[o][j].slot == j)
    && (forall o :: o in objs ==> o.depth <= MAX_DEPTH && (o.up == null ==> o.depth == 0))
    && (forall o :: o in objs && o.element != null ==> o in slots)
    && (forall o :: o in slots ==> o.element != null && o.ty == ARRAY && o.elements == |slots[o]|)
  }

  /** What the current slot of the i-th array being filled holds: the next array, or the new object cur. */
  ghost function Pending(s: Snapshot, i: nat, cur: ReplyObject?): ReplyObject?
    requires i < |s.tasks|
  {
    if i + 1 < |s.frames| && i + 1 < |s.tasks| then s.tasks[i + 1].obj else cur
  }

  /** The task at stack index i holds the array that frame i describes. */
  ghost predicate Level(s: Snapshot, i: nat, cur: ReplyObject?)
    requires i < |s.frames| && i + 1 < |s.tasks|
  {
    var t, f := s.tasks[i], s.frames[i];
    && t.ty == ARRAY && t.elements == f.count && |f.items| < f.count
    && s.tasks[i + 1].parent == i && s.tasks[i + 1].idx == |f.items|
    && t.obj != null && t.obj in s.slots && t.obj !in s.val && t.obj.depth == i
    && t.obj.ty == ARRAY && t.obj.elements == f.count && |s.slots[t.obj]| == f.count
    && (forall j :: 0 <= j < |f.items| ==> s.slots[t.obj][j] in s.val && s.val[s.slots[t.obj][j]] == f.items[j])
    && s.slots[t.obj][|f.items|] == Pending(s, i, cur)
    && (forall j :: |f.items| < j < f.count ==> s.slots[t.obj][j] == null)
  }

  /** The root of the unfinished reply. */
  ghost function Root(s: Snapshot, cur: ReplyObject?): ReplyObject?
    requires |s.tasks| > 0
  {
    if |s.frames| > 0 then s.tasks[0].obj else cur
  }

  /** The stack holds the arrays being filled, one level per frame. */
  ghost predicate Stacked(s: Snapshot, cur: ReplyObject?) {
    && |s.tasks| == MAX_DEPTH + 1
    && -1 <= s.ridx <= MAX_DEPTH && |s.frames| == (if s.ridx < 0 then 0 else s.ridx)
    && (s.ridx >= 0 ==> s.tasks[0].parent == -1)
    && (forall i :: 0 <= i < |s.frames| ==> Level(s, i, cur))
  }

  ghost predicate Known(s: Snapshot) {
    forall o :: o in s.val ==> o in s.objs && Agrees(o, s.val[o], s.val, s.slots)
  }

  /** An object is finished, or just made, or on the stack; only the root has no parent. */
  ghost predicate Accounted(s: Snapshot, cur: ReplyObject?)
    requires |s.tasks| == MAX_DEPTH + 1 && |s.frames| <= MAX_DEPTH
  {
    && (forall o :: o in s.objs ==> o in s.val || o == cur || (o.depth < |s.frames| && o == s.tasks[o.depth].obj))
    && (forall o :: o in s.objs && o.up == null ==> o == Root(s, cur))
    && (cur == null && s.frames == [] ==> s.objs == {})
    && (cur != null ==> cur in s.objs && cur.depth == |s.frames|)
  }

  /**
   The stack, the objects and the frames tell the same story. cur is the object just made for
   the current task, or null between tasks.
   */
  ghost predicate Tree(s: Snapshot, cur: ReplyObject?) {
    Stacked(s, cur) && Linked(s.objs, s.slots) && Known(s) && Accounted(s, cur)
  }

  lemma TreeFrames(s: Snapshot, cur: ReplyObject?)
    requires Stacked(s, cur)
    ensures FramesOk(s.frames)
  {
    forall i | 0 <= i < |s.frames| ensures |s.frames[i].items| < s.frames[i].count {
      assert Level(s, i, cur);
    }
  }

  lemma TopLevel(s: Snapshot, cur: ReplyObject?)
    requires Tree(s, cur)
    ensures Stacked(s, cur) && (s.ridx > 0 ==> Level(s, s.ridx - 1, cur))
    ensures cur != null ==> cur.depth == |s.frames|
    ensures s.slots.Keys <= s.objs && s.val.Keys <= s.objs
  {
  }

  lemma TopTask(s: Snapshot, cur: ReplyObject?)
    requires Tree(s, cur) && s.ridx >= 0
    ensures |s.tasks| == MAX_DEPTH + 1 && s.ridx <= MAX_DEPTH && |s.frames| == s.ridx
    ensures s.ridx > 0 ==> s.tasks[s.ridx - 1].ty == ARRAY
  {
    TopLevel(s, cur);
  }

  /** The task of the root item is done: the stack is empty. */
  lemma LeaveStack(s: Snapshot, cur: ReplyObject?)
    requires Tree(s, cur) && s.ridx == 0
    ensures Tree(s.(ridx := -1), cur) && Root(s.(ridx := -1), cur) == Root(s, cur) == cur
  {
  }

  /** The type of the item on top of the stack is not part of the tree. */
  ghost function Retyped(s: Snapshot, ty: int): Snapshot
    requires 0 <= s.ridx < |s.tasks|
  {
    s.(tasks := s.tasks[s.ridx := s.tasks[s.ridx].(ty := ty)])
  }

  lemma RetypeStacked(s: Snapshot, ty: int)
    requires Stacked(s, null) && s.ridx >= 0
    ensures Stacked(Retyped(s, ty), null)
  {
    forall i | 0 <= i < |s.frames| ensures Level(Retyped(s, ty), i, null) {
      assert Level(s, i, null);
    }
  }

  lemma RetypeTree(s: Snapshot, ty: int)
    requires Tree(s, null) && s.ridx >= 0
    ensures Stacked(s, null)
    ensures Tree(Retyped(s, ty), null) && Root(Retyped(s, ty), null) == Root(s, null)
  {
    hide Linked, Level;
    RetypeStacked(s, ty);
  }

  /** A fresh root task on an empty stack. */
  lemma StartTree(s: Snapshot)
    requires Tree(s, null) && s.ridx == -1
    ensures |s.tasks| == MAX_DEPTH + 1
    ensures var s' := s.(tasks := s.tasks[0 := Task(-1, -1, -1, null, -1)], ridx := 0);
      Tree(s', null) && Root(s', null) == Root(s, null) == null && s.frames == []
  {
  }

  /** A finished reply: nothing made for it lies anywhere but under its root. */
  lemma FinishedKnown(s: Snapshot, root: ReplyObject)
    requires Tree(s, root) && s.ridx == -1
    ensures Known(s) && s.frames == []
    ensures Linked(s.objs, s.slots) && root in s.objs && Under(s.objs, root) == s.objs
  {
    hide Known, Level;
    forall x | x in s.objs ensures Below(x, root) {
      AllBelowRoot(s, x, root);
    }
  }

  /** No tree at all. */
  lemma NoTree(tasks: seq<Task>)
    requires |tasks| == MAX_DEPTH + 1
    ensures Tree(Snapshot(tasks, -1, [], {}, map[], map[]), null)
  {
  }

  lemma RootInside(s: Snapshot)
    requires Tree(s, null) && Root(s, null) != null
    ensures Root(s, null) in s.objs
  {
    assert |s.frames| > 0 ==> Level(s, 0, null);
  }

  lemma EmptyWhenRootless(s: Snapshot)
    requires Tree(s, null) && Root(s, null) == null
    ensures s.objs == {}
  {
  }

  // ----- The array around a finished object is full: it is finished too -----

  ghost predicate Full(s: Snapshot, cur: ReplyObject?) {
    && Stacked(s, cur) && cur in s.val && s.ridx > 0
    && s.tasks[s.ridx].idx == s.tasks[s.ridx - 1].elements - 1
  }

  ghost function Popped(s: Snapshot, cur: ReplyObject?): Snapshot
    requires Full(s, cur)
  {
    var n := s.ridx - 1;
    assert Level(s, n, cur);
    s.(ridx := n, frames := s.frames[..n],
       val := s.val[s.tasks[n].obj := Array(s.frames[n].items + [s.val[cur]])])
  }

  lemma {:induction false} PopStacked(s: Snapshot, cur: ReplyObject)
    requires Full(s, cur)
    ensures Stacked(Popped(s, cur), s.tasks[s.ridx - 1].obj)
  {
    var n := s.ridx - 1;
    assert Level(s, n, cur);
    var s' := Popped(s, cur);
    forall i | 0 <= i < n ensures Level(s', i, s.tasks[n].obj) {
      assert Level(s, i, cur);
    }
  }

  lemma {:induction false} PopKnown(s: Snapshot, cur: ReplyObject)
    requires Full(s, cur) && Known(s) && s.slots.Keys <= s.objs
    ensures Known(Popped(s, cur))
  {
    var n := s.ridx - 1;
    assert Level(s, n, cur);
    var s', arr := Popped(s, cur), s.tasks[n].obj;
    forall o | o in s'.val ensures o in s'.objs && Agrees(o, s'.val[o], s'.val, s'.slots) {
      if o != arr {
        assert Agrees(o, s.val[o], s.val, s.slots);
      }
    }
  }

  lemma {:induction false} PopAccounted(s: Snapshot, cur: ReplyObject)
    requires Full(s, cur) && Accounted(s, cur) && s.slots.Keys <= s.objs
    ensures Accounted(Popped(s, cur), s.tasks[s.ridx - 1].obj)
    ensures Root(Popped(s, cur), s.tasks[s.ridx - 1].obj) == Root(s, cur)
  {
    assert Level(s, s.ridx - 1, cur);
  }

  lemma {:induction false} PopTree(s: Snapshot, cur: ReplyObject)
    requires Tree(s, cur) && cur in s.val && 0 < s.ridx < |s.tasks|
    requires s.tasks[s.ridx].idx == s.tasks[s.ridx - 1].elements - 1
    ensures Full(s, cur) && |s.frames| == s.ridx
    ensures var arr := s.tasks[s.ridx - 1].obj;
      && arr != null && |s.frames[s.ridx - 1].items| + 1 == s.frames[s.ridx - 1].count
      && Tree(Popped(s, cur), arr) && Root(Popped(s, cur), arr) == Root(s, cur)
  {
    assert Level(s, s.ridx - 1, cur);
    PopStacked(s, cur);
    PopKnown(s, cur);
    PopAccounted(s, cur);
  }

  // ----- The array around a finished object has room: the next item goes to its next slot -----

  ghost predicate Roomy(s: Snapshot, cur: ReplyObject?) {
    && Stacked(s, cur) && cur in s.val && s.ridx > 0
    && s.tasks[s.ridx].idx != s.tasks[s.ridx - 1].elements - 1
  }

  ghost function Advanced(s: Snapshot, cur: ReplyObject?): Snapshot
    requires Roomy(s, cur)
  {
    var n, t := s.ridx - 1, s.tasks[s.ridx];
    s.(tasks := s.tasks[s.ridx := t.(ty := -1, elements := -1, idx := t.idx + 1)],
       frames := s.frames[..n] + [Frame(s.frames[n].items + [s.val[cur]], s.frames[n].count)])
  }

  lemma {:induction false} AdvanceStacked(s: Snapshot, cur: ReplyObject)
    requires Roomy(s, cur)
    ensures var n := s.ridx - 1;
      && |s.frames[n].items| + 1 < s.frames[n].count && s.tasks[s.ridx].idx < s.tasks[n].elements
      && Stacked(Advanced(s, cur), null)
  {
    var n := s.ridx - 1;
    var s' := Advanced(s, cur);
    assert Level(s, n, cur);
    forall i | 0 <= i < |s'.frames| ensures Level(s', i, null) {
      assert Level(s, i, cur);
    }
  }

  lemma {:induction false} AdvanceTree(s: Snapshot, cur: ReplyObject)
    requires Tree(s, cur) && cur in s.val && 0 < s.ridx < |s.tasks|
    requires s.tasks[s.ridx].idx != s.tasks[s.ridx - 1].elements - 1
    ensures Roomy(s, cur) && |s.frames| == s.ridx
    ensures var n := s.ridx - 1;
      && |s.frames[n].items| + 1 < s.frames[n].count && s.tasks[s.ridx].idx < s.tasks[n].elements
      && Tree(Advanced(s, cur), null) && Root(Advanced(s, cur), null) == Root(s, cur)
  {
    AdvanceStacked(s, cur);
  }

  // ----- A new object goes into the current slot of the innermost array -----

  /** r was made for the current task: as a finished leaf v, or as an array still to be filled. */
  ghost predicate Fits(s: Snapshot, r: ReplyObject, v: Option<Reply>) {
    && Stacked(s, null) && s.ridx >= 0 && s.slots.Keys <= s.objs && s.val.Keys <= s.objs
    && r !in s.objs
    && r.up == (if s.ridx > 0 then s.tasks[s.ridx - 1].obj else null)
    && r.depth == s.ridx && (s.ridx > 0 ==> r.slot == s.tasks[s.ridx].idx)
    && (if v.Some? then r.IsLeaf(v.value) && r.element == null else r.ty == ARRAY && r.elements > 0 && r.element != null)
  }

  /** The slots once r is in the slot it was made for. */
  ghost function Filled(s: Snapshot, r: ReplyObject, v: Option<Reply>): map<ReplyObject, seq<ReplyObject?>>
    requires Fits(s, r, v)
  {
    assert s.ridx > 0 ==> Level(s, s.ridx - 1, null);
    if s.ridx > 0 then s.slots[r.up := s.slots[r.up][r.slot := r]] else s.slots
  }

  ghost function Attached(s: Snapshot, r: ReplyObject, v: Option<Reply>): Snapshot
    requires Fits(s, r, v)
  {
    var filled := Filled(s, r, v);
    s.(objs := s.objs + {r},
       val := if v.Some? then s.val[r := v.value] else s.val,
       slots := if v.Some? then filled else filled[r := seq(r.elements, _ => null)])
  }

  lemma {:induction false} AttachStacked(s: Snapshot, r: ReplyObject, v: Option<Reply>)
    requires Fits(s, r, v)
    ensures Stacked(Attached(s, r, v), r)
  {
    var s' := Attached(s, r, v);
    forall i | 0 <= i < |s.frames| ensures Level(s', i, r) {
      assert Level(s, i, null);
      assert s.ridx > 0 ==> Level(s, s.ridx - 1, null);
    }
  }

  /** A new object in an empty slot, or at the root; a new array brings empty slots of its own. */
  lemma NewLinked(objs: set<ReplyObject>, slots: map<ReplyObject, seq<ReplyObject?>>, r: ReplyObject)
    requires Linked(objs, slots) && r !in objs && r.depth <= MAX_DEPTH
    requires if r.up == null then r.depth == 0
      else r.up in slots && r.depth == r.up.depth + 1 && 0 <= r.slot < |slots[r.up]| && slots[r.up][r.slot] == null
    ensures var filled := if r.up == null then slots else slots[r.up := slots[r.up][r.slot := r]];
      && (r.element == null ==> Linked(objs + {r}, filled))
      && (r.element != null && r.ty == ARRAY && r.elements >= 0 ==> Linked(objs + {r}, filled[r := seq(r.elements, _ => null)]))
  {
  }

  lemma {:induction false} AttachLinked(s: Snapshot, r: ReplyObject, v: Option<Reply>)
    requires Fits(s, r, v) && Linked(s.objs, s.slots)
    ensures Linked(Attached(s, r, v).objs, Attached(s, r, v).slots)
  {
    hide Linked;
    assert s.ridx > 0 ==> Level(s, s.ridx - 1, null);
    NewLinked(s.objs, s.slots, r);
  }

  lemma {:induction false} AttachKnown(s: Snapshot, r: ReplyObject, v: Option<Reply>)
    requires Fits(s, r, v) && Known(s)
    ensures Known(Attached(s, r, v))
  {
    assert s.ridx > 0 ==> Level(s, s.ridx - 1, null);
    var s' := Attached(s, r, v);
    forall o | o in s'.val ensures o in s'.objs && Agrees(o, s'.val[o], s'.val, s'.slots) {
      if o != r {
        assert Agrees(o, s.val[o], s.val, s.slots);
      }
    }
  }

  lemma {:induction false} AttachAccounted(s: Snapshot, r: ReplyObject, v: Option<Reply>)
    requires Fits(s, r, v) && Accounted(s, null)
    ensures Accounted(Attached(s, r, v), r)
    ensures Root(Attached(s, r, v), r) == if s.ridx > 0 then Root(s, null) else r
  {
    assert s.ridx > 0 ==> Level(s, s.ridx - 1, null);
  }

  lemma {:induction false} AttachTree(s: Snapshot, r: ReplyObject, v: Option<Reply>)
    requires Tree(s, null) && Fits(s, r, v)
    ensures Tree(Attached(s, r, v), r)
    ensures Root(Attached(s, r, v), r) == if s.ridx > 0 then Root(s, null) else r
  {
    AttachStacked(s, r, v);
    AttachLinked(s, r, v);
    AttachKnown(s, r, v);
    AttachAccounted(s, r, v);
  }

  // ----- A new array becomes the innermost one being filled -----

  ghost predicate Pushable(s: Snapshot, r: ReplyObject) {
    && Stacked(s, r) && 0 <= s.ridx < MAX_DEPTH && s.tasks[s.ridx].ty == ARRAY
    && r !in s.val && r.depth == s.ridx && r.ty == ARRAY && r.elements > 0
    && r in s.slots && s.slots[r] == seq(r.elements, _ => null)
  }

  ghost function Pushed(s: Snapshot, r: ReplyObject): Snapshot
    requires Pushable(s, r)
  {
    var t := s.tasks[s.ridx].(elements := r.elements, obj := r);
    s.(tasks := s.tasks[s.ridx := t][s.ridx + 1 := Task(-1, -1, 0, null, s.ridx)],
       ridx := s.ridx + 1, frames := s.frames + [Frame([], r.elements)])
  }

  lemma {:induction false} PushStacked(s: Snapshot, r: ReplyObject)
    requires Pushable(s, r)
    ensures Stacked(Pushed(s, r), null)
  {
    var s' := Pushed(s, r);
    forall i | 0 <= i < |s'.frames| ensures Level(s', i, null) {
      if i < |s.frames| {
        assert Level(s, i, r);
      }
    }
  }

  lemma {:induction false} PushTree(s: Snapshot, r: ReplyObject)
    requires Pushable(s, r) && Tree(s, r)
    ensures Tree(Pushed(s, r), null) && Root(Pushed(s, r), null) == Root(s, r)
  {
    PushStacked(s, r);
  }

  /** Freeing what lies under the root frees everything. */
  lemma UnderRoot(s: Snapshot)
    requires Tree(s, null) && Root(s, null) != null
    ensures Root(s, null) in s.objs && Linked(s.objs, s.slots) && Under(s.objs, Root(s, null)) == s.objs
  {
    RootInside(s);
    forall x | x in s.objs ensures Below(x, Root(s, null)) {
      AllBelowRoot(s, x, Root(s, null));
    }
  }

  // ----- What a caller sees of a finished reply -----

  /** A finished object spells out its value in the heap, if the heap agrees with the snapshot. */
  lemma {:induction false} KnownDenotes(s: Snapshot, o: ReplyObject, tree: set<object>)
    requires Known(s) && o in s.val && s.objs <= tree
    requires forall p :: p in s.slots ==> p.element != null && p.element in tree && p.element[..] == s.slots[p]
    ensures o.Denotes(s.val[o], tree)
    decreases s.val[o]
  {
    var v := s.val[o];
    assert Agrees(o, v, s.val, s.slots);
    if v.Array? && v.items != [] {
      forall j | 0 <= j < |v.items| ensures o.element[j] != null && o.element[j].Denotes(v.items[j], tree) {
        assert o.element[j] == s.slots[o][j];
        KnownDenotes(s, o.element[j], tree);
      }
    }
  }

  lemma LinkedObject(objs: set<ReplyObject>, slots: map<ReplyObject, seq<ReplyObject?>>, o: ReplyObject)
    requires Linked(objs, slots) && o in objs
    ensures o in slots <==> o.element != null
    ensures o in slots ==> o.ty == ARRAY && o.elements == |slots[o]|
  {
  }

  lemma LinkedSlot(objs: set<ReplyObject>, slots: map<ReplyObject, seq<ReplyObject?>>, o: ReplyObject, j: nat)
    requires Linked(objs, slots) && o in slots && j < |slots[o]| && slots[o][j] != null
    ensures slots[o][j] in objs && o.depth < slots[o][j].depth <= MAX_DEPTH
  {
  }

  // ----- Everything made for the unfinished reply hangs off its root -----

  lemma {:induction false} AllBelowRoot(s: Snapshot, x: ReplyObject, root: ReplyObject)
    requires Linked(s.objs, s.slots) && x in s.objs
    requires forall o :: o in s.objs && o.up == null ==> o == root
    ensures Below(x, root)
    decreases x.depth
  {
    if x.up != null {
      AllBelowRoot(s, x.up, root);
    }
  }

  /** Two objects at the same depth have nothing in common below them. */
  lemma {:induction false} BelowOne(x: ReplyObject, o: ReplyObject, p: ReplyObject)
    requires Below(x, o) && Below(x, p) && o.depth == p.depth
    ensures o == p
    decreases x.depth
  {
    if x != o && x != p {
      BelowOne(x.up, o, p);
    } else {
      BelowDepth(x, o);
      BelowDepth(x, p);
    }
  }

  lemma {:induction false} BelowDepth(x: ReplyObject, o: ReplyObject)
    requires Below(x, o)
    ensures x == o || o.depth < x.depth
    decreases x.depth
  {
    if x != o {
      BelowDepth(x.up, o);
    }
  }

  ghost function Under(objs: set<ReplyObject>, o: ReplyObject): set<ReplyObject> {
    set x | x in objs && Below(x, o)
  }

  ghost predicate BelowSome(x: ReplyObject, os: seq<ReplyObject?>) {
    exists k :: 0 <= k < |os| && os[k] != null && Below(x, os[k])
  }

  ghost function UnderSome(objs: set<ReplyObject>, os: seq<ReplyObject?>): set<ReplyObject> {
    set x | x in objs && BelowSome(x, os)
  }

  /** What lies strictly under an object lies under one of its slots. */
  lemma {:induction false} BelowChild(objs: set<ReplyObject>, slots: map<ReplyObject, seq<ReplyObject?>>,
                                      x: ReplyObject, o: ReplyObject)
    requires Linked(objs, slots) && x in objs && Below(x, o) && x != o
    ensures o in slots && BelowSome(x, slots[o])
    decreases x.depth
  {
    if x.up == o {
      assert slots[o][x.slot] == x;
    } else {
      BelowChild(objs, slots, x.up, o);
      var k :| 0 <= k < |slots[o]| && slots[o][k] != null && Below(x.up, slots[o][k]);
      assert Below(x, slots[o][k]);
    }
  }

  lemma {:induction false} BelowUp(x: ReplyObject, c: ReplyObject, o: ReplyObject)
    requires Below(x, c) && c.up == o && c.depth == o.depth + 1
    ensures Below(x, o) && x != o
    decreases x.depth
  {
    BelowDepth(x, c);
    if x != c {
      BelowUp(x.up, c, o);
    }
  }

  /** An array and what lies under its slots is all that lies under it. */
  lemma {:induction false} UnderArray(objs: set<ReplyObject>, slots: map<ReplyObject, seq<ReplyObject?>>, o: ReplyObject)
    requires Linked(objs, slots) && o in objs
    ensures Under(objs, o) == {o} + (if o in slots then UnderSome(objs, slots[o]) else {})
    ensures o in slots ==> o !in UnderSome(objs, slots[o])
  {
    forall x | x in Under(objs, o) && x != o ensures o in slots && BelowSome(x, slots[o]) {
      BelowChild(objs, slots, x, o);
    }
    if o in slots {
      forall x | x in objs && BelowSome(x, slots[o]) ensures Below(x, o) && x != o {
        var k :| 0 <= k < |slots[o]| && slots[o][k] != null && Below(x, slots[o][k]);
        BelowUp(x, slots[o][k], o);
      }
    }
  }

  /** What lies under one slot does not lie under an earlier one. */
  lemma {:induction false} UnderNext(objs: set<ReplyObject>, slots: map<ReplyObject, seq<ReplyObject?>>, o: ReplyObject, j: nat)
    requires Linked(objs, slots) && o in slots && j < |slots[o]|
    ensures var os := slots[o];
      && (os[j] == null ==> UnderSome(objs, os[..j + 1]) == UnderSome(objs, os[..j]))
      && (os[j] != null ==>
            && UnderSome(objs, os[..j + 1]) == UnderSome(objs, os[..j]) + Under(objs, os[j])
            && UnderSome(objs, os[..j]) !! Under(objs, os[j])
            && Under(objs, os[j]) <= Under(objs, o))
  {
    var os := slots[o];
    forall x ensures BelowSome(x, os[..j + 1]) == (BelowSome(x, os[..j]) || (os[j] != null && Below(x, os[j]))) {
      if BelowSome(x, os[..j]) {
        var k :| 0 <= k < j && os[..j][k] != null && Below(x, os[..j][k]);
        assert os[..j + 1][k] == os[k];
      }
      if os[j] != null && Below(x, os[j]) {
        assert os[..j + 1][j] == os[j];
      }
    }
    if os[j] != null {
      forall x | x in objs && BelowSome(x, os[..j]) ensures !Below(x, os[j]) {
        var k :| 0 <= k < j && os[..j][k] != null && Below(x, os[..j][k]);
        if Below(x, os[j]) {
          BelowOne(x, os[k], os[j]);
        }
      }
      forall x | x in Under(objs, os[j]) ensures Below(x, o) {
        BelowUp(x, os[j], o);
      }
    }
  }

  // ----- A reply in its caller's hands -----

  /** The objects a reply is made of, and what the slots of the arrays among them hold. */
  datatype Parts = Parts(objs: set<ReplyObject>, slots: map<ReplyObject, seq<ReplyObject?>>)

  ghost function VectorsOf(slots: map<ReplyObject, seq<ReplyObject?>>): set<array<ReplyObject?>> {
    set o | o in slots && o.element != null :: o.element
  }

  /** All there is of a reply, its element vectors included. */
  ghost function Objects(p: Parts): set<object> {
    p.objs + VectorsOf(p.slots)
  }

  /** The arrays hold what their slots are said to hold. */
  ghost predicate Held(slots: map<ReplyObject, seq<ReplyObject?>>)
    reads VectorsOf(slots)
  {
    forall o :: o in slots ==> o.element != null && o.element in VectorsOf(slots) && o.element[..] == slots[o]
  }

  /** The parts make a tree with root r, every object in one slot and no slot but its own, that spells out v. */
  ghost predicate Whole(r: ReplyObject, v: Reply, p: Parts)
    reads Objects(p)
  {
    && Linked(p.objs, p.slots) && r in p.objs && Under(p.objs, r) == p.objs
    && Held(p.slots) && r.Denotes(v, Objects(p))
  }
}
