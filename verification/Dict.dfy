/** The chained hash table, updated in place. */
module Dict {
  import opened Bytes
  import opened Hashing

  type Key = seq<byte>

  class DictEntry<V> {
    const key: Key
    var val: V
    var next: DictEntry?<V>

    constructor (key: Key, val: V, next: DictEntry?<V>)
      ensures this.key == key && this.val == val && this.next == next
    {
      this.key, this.val, this.next := key, val, next;
    }
  }

  // ----- Chains and where entries belong -----

  /** The linked list that starts at head holds exactly these entries. */
  ghost predicate Chain<V>(head: DictEntry?<V>, es: seq<DictEntry<V>>)
    reads es`next
  {
    && head == (if es == [] then null else es[0])
    && forall j {:trigger es[j].next} :: 0 <= j < |es| ==> es[j].next == (if j + 1 < |es| then es[j + 1] else null)
  }

  ghost predicate NoRepeats<V>(es: seq<DictEntry<V>>) {
    forall i, j :: 0 <= i < j < |es| ==> es[i] != es[j]
  }

  function Bucket(key: Key, size: nat): nat
    requires size > 0
  {
    Hash(key) % size
  }

  /** Every entry is in the chain of its bucket and in no other, once. */
  ghost predicate Placed<V>(all: set<DictEntry<V>>, chains: seq<seq<DictEntry<V>>>) {
    && (chains == [] ==> all == {})
    && (forall e :: e in all ==> chains != [] && e in chains[Bucket(e.key, |chains|)])
    && (forall i, e {:trigger e in chains[i]} :: 0 <= i < |chains| && e in chains[i] ==> e in all && Bucket(e.key, |chains|) == i)
    && (forall i :: 0 <= i < |chains| ==> NoRepeats(chains[i]))
  }

  /** No two entries have the same key. */
  ghost predicate Distinct<V>(all: set<DictEntry<V>>) {
    forall e, f :: e in all && f in all && e.key == f.key ==> e == f
  }

  /** The chains from number k on hang in the table. */
  ghost predicate Linked<V>(table: array<DictEntry?<V>>, all: set<DictEntry<V>>, chains: seq<seq<DictEntry<V>>>, k: nat)
    reads table, all`next
  {
    && table.Length == |chains|
    && forall i :: k <= i < |chains| ==> (forall e :: e in chains[i] ==> e in all) && Chain(table[i], chains[i])
  }

  /** The map the entries make. */
  ghost function MapOf<V>(all: set<DictEntry<V>>): map<Key, V>
    requires Distinct(all)
    reads all`val
  {
    map e | e in all :: e.key := e.val
  }

  /** The entry with a key in a chain. */
  ghost function Lookup<V>(es: seq<DictEntry<V>>, key: Key): (e: DictEntry?<V>)
    ensures e != null ==> e in es && e.key == key
    ensures e == null ==> forall f :: f in es ==> f.key != key
  {
    if es == [] then null else if es[0].key == key then es[0] else Lookup(es[1..], key)
  }

  // ----- Walking and pushing -----

  method Search<V>(head: DictEntry?<V>, key: Key, ghost es: seq<DictEntry<V>>) returns (he: DictEntry?<V>)
    requires Chain(head, es)
    ensures he == Lookup(es, key)
  {
    he := head;
    ghost var j := 0;
    while he != null
      invariant 0 <= j <= |es| && he == (if j < |es| then es[j] else null)
      invariant Lookup(es, key) == Lookup(es[j..], key)
      decreases |es| - j
    {
      if he.key == key {
        return;
      }
      assert es[j..][1..] == es[j + 1..] && es[j].next == he.next;
      he := he.next;
      j := j + 1;
    }
  }

  /** Hangs an entry in front of the chain of its bucket. */
  method PushEntry<V>(he: DictEntry<V>, table: array<DictEntry?<V>>, h: nat,
      ghost all: set<DictEntry<V>>, ghost chains: seq<seq<DictEntry<V>>>)
    returns (ghost chains': seq<seq<DictEntry<V>>>)
    requires chains != [] && Linked(table, all, chains, 0) && Placed(all, chains)
    requires he !in all && h == Bucket(he.key, |chains|)
    modifies table, he`next
    ensures |chains'| == |chains| && chains' == chains[h := [he] + chains[h]]
    ensures Linked(table, all + {he}, chains', 0) && Placed(all + {he}, chains')
  {
    he.next := table[h];
    table[h] := he;
    chains' := chains[h := [he] + chains[h]];
    forall i | 0 <= i < |chains'| ensures Chain(table[i], chains'[i]) {
      if i != h {
        assert he !in chains[i];
      }
    }
  }

  /** A chain without its entry number j. */
  function Without<T>(es: seq<T>, j: nat): seq<T>
    requires j < |es|
  {
    es[..j] + es[j + 1..]
  }

  /** Takes entry number j out of its chain. */
  method Unlink<V>(table: array<DictEntry?<V>>, h: nat, prevde: DictEntry?<V>, de: DictEntry<V>,
      ghost all: set<DictEntry<V>>, ghost chains: seq<seq<DictEntry<V>>>, ghost j: nat)
    requires Linked(table, all, chains, 0) && Placed(all, chains) && h < |chains| && j < |chains[h]|
    requires de == chains[h][j] && prevde == (if j > 0 then chains[h][j - 1] else null)
    modifies table, all`next
    ensures Linked(table, all - {de}, chains[h := Without(chains[h], j)], 0)
  {
    ghost var es := chains[h];
    ghost var es' := Without(es, j);
    ghost var t := table[..];
    assert Chain(table[h], es) && es[j].next == de.next;
    if prevde != null {
      prevde.next := de.next;
    } else {
      table[h] := de.next;
    }
    forall i | 0 <= i < |chains| && i != h ensures Chain(table[i], chains[i]) && forall e :: e in chains[i] ==> e in all && e != de {
      assert de in chains[h];
      assert prevde != null ==> prevde in chains[h] && prevde !in chains[i];
      assert table[i] == t[i];
    }
    UnlinkedChain(table[h], es, j, prevde);
  }

  lemma UnlinkedChain<V>(head: DictEntry?<V>, es: seq<DictEntry<V>>, j: nat, prevde: DictEntry?<V>)
    requires j < |es| && NoRepeats(es) && prevde == (if j > 0 then es[j - 1] else null)
    requires forall i {:trigger es[i].next} :: 0 <= i < |es| && i + 1 != j ==> es[i].next == (if i + 1 < |es| then es[i + 1] else null)
    requires if j > 0 then head == es[0] && prevde.next == es[j].next else head == es[0].next
    ensures Chain(head, Without(es, j))
  {
    var es' := Without(es, j);
    forall i | 0 <= i < |es'| ensures es'[i].next == (if i + 1 < |es'| then es'[i + 1] else null) {
      if i + 1 < j {
        assert es'[i] == es[i] && es[i].next == es[i + 1];
      } else if i + 1 == j {
        assert es'[i] == prevde && es[j].next == prevde.next;
      } else {
        assert es'[i] == es[i + 1];
        assert es[i + 1].next == es'[i].next;
      }
    }
  }

  lemma WithoutPlaced<V>(all: set<DictEntry<V>>, chains: seq<seq<DictEntry<V>>>, h: nat, j: nat)
    requires Placed(all, chains) && h < |chains| && j < |chains[h]|
    ensures Placed(all - {chains[h][j]}, chains[h := Without(chains[h], j)])
  {
    var de, es' := chains[h][j], Without(chains[h], j);
    var chains' := chains[h := es'];
    forall e | e in chains[h] && e != de ensures e in es' {
      var i :| 0 <= i < |chains[h]| && chains[h][i] == e;
      assert e == if i < j then es'[i] else es'[i - 1];
    }
    assert forall e :: e in es' ==> e in chains[h] && e != de;
    forall i, e {:trigger e in chains'[i]} | 0 <= i < |chains'| && e in chains'[i]
      ensures e in all - {de} && Bucket(e.key, |chains'|) == i
    {
      assert e in chains[i];
      assert de in chains[h];
    }
  }

  // ----- The table -----

  ghost function SetOf<V>(es: seq<DictEntry<V>>): set<DictEntry<V>> {
    set e | e in es
  }

  lemma {:induction false} SetOfSize<V>(es: seq<DictEntry<V>>)
    requires NoRepeats(es)
    ensures |SetOf(es)| == |es|
  {
    if es != [] {
      var n := |es| - 1;
      SetOfSize(es[..n]);
      assert SetOf(es) == SetOf(es[..n]) + {es[n]};
    }
  }

  /** A chain is empty, or an entry and the chain that starts at its next. */
  lemma ChainParts<V>(head: DictEntry?<V>, es: seq<DictEntry<V>>)
    requires Chain(head, es) && NoRepeats(es)
    ensures head == null <==> es == []
    ensures head == null ==> SetOf(es) == {}
    ensures head != null ==>
      && head == es[0] && Chain(head.next, es[1..]) && NoRepeats(es[1..])
      && head !in SetOf(es[1..]) && SetOf(es) == {head} + SetOf(es[1..])
  {
    if head != null {
      var rest := es[1..];
      forall k | 0 <= k < |rest| ensures rest[k].next == (if k + 1 < |rest| then rest[k + 1] else null) {
        assert rest[k] == es[k + 1];
      }
      assert es[0].next == head.next;
    }
  }

  class Dict<V> {
    var table: array?<DictEntry?<V>>
    var size: nat
    var sizemask: nat
    var used: nat
    ghost var all: set<DictEntry<V>>
    ghost var chains: seq<seq<DictEntry<V>>>
    ghost var Repr: set<object>

    /** The size is zero or a power of two of at least four, and no smaller than the number of entries. */
    ghost predicate Sized()
      reads this
    {
      && (size == 0 || (PowerOfTwo(size) && size >= INITIAL_SIZE))
      && sizemask == (if size == 0 then 0 else size - 1)
      && used == |all| && used <= size && size == |chains|
    }

    ghost predicate Valid()
      reads this, Repr
    {
      && this in Repr && (forall e :: e in all ==> e in Repr)
      && Sized()
      && (table == null <==> size == 0)
      && (table != null ==> table in Repr && Linked(table, all, chains, 0))
      && Placed(all, chains) && Distinct(all)
    }

    /** The map the table stands for. */
    ghost function Contents(): map<Key, V>
      requires Valid()
      reads this, Repr
    {
      MapOf(all)
    }

    /** dictCreate. */
    constructor ()
      ensures Valid() && fresh(Repr) && Contents() == map[]
    {
      table, size, sizemask, used := null, 0, 0, 0;
      all, chains := {}, [];
      new;
      Repr := {this};
    }

    method IndexOf(key: Key) returns (h: nat)
      requires Valid() && size > 0
      ensures h == Bucket(key, size)
    {
      var hash := GenHashFunction(key);
      MaskIsRemainder(hash, size);
      h := And(hash, sizemask);
    }

    /** dictFind: the entry with this key, if there is one. */
    method Find(key: Key) returns (he: DictEntry?<V>)
      requires Valid()
      ensures he == null <==> key !in Contents()
      ensures he != null ==> he in all && he.key == key && he.val == Contents()[key]
    {
      if size == 0 {
        return null;
      }
      var h := IndexOf(key);
      he := Search(table[h], key, chains[h]);
      assert forall e :: e in all && e.key == key ==> e in chains[h];
    }

    /** One chain of the old table goes entry by entry to the front of chains of the new one. */
    method MoveChain(head: DictEntry?<V>, n: array<DictEntry?<V>>,
        ghost es: seq<DictEntry<V>>, ghost moved: set<DictEntry<V>>, ghost chains0: seq<seq<DictEntry<V>>>)
      returns (ghost chains': seq<seq<DictEntry<V>>>)
      requires Chain(head, es) && NoRepeats(es) && SetOf(es) !! moved
      requires chains0 != [] && n.Length == |chains0| && PowerOfTwo(n.Length) && Linked(n, moved, chains0, 0) && Placed(moved, chains0)
      requires used >= |es|
      modifies n, SetOf(es)`next, `used
      ensures used == old(used) - |es| && |chains'| == |chains0|
      ensures Linked(n, moved + SetOf(es), chains', 0) && Placed(moved + SetOf(es), chains')
    {
      hide Linked, Placed, Chain, NoRepeats, SetOf;
      var he := head;
      chains' := chains0;
      ghost var rest, now := es, moved;
      ChainParts(head, es);
      while he != null
        invariant Chain(he, rest) && NoRepeats(rest) && (rest == [] <==> he == null)
        invariant SetOf(rest) <= SetOf(es) && SetOf(rest) !! now && now + SetOf(rest) == moved + SetOf(es)
        invariant used == old(used) - |es| + |rest| && |chains'| == |chains0|
        invariant Linked(n, now, chains', 0) && Placed(now, chains')
        decreases |rest|
      {
        ChainParts(he, rest);
        var nextHe := he.next;
        var hash := GenHashFunction(he.key);
        MaskIsRemainder(hash, n.Length);
        chains' := PushEntry(he, n, And(hash, n.Length - 1), now, chains');
        used := used - 1;
        he, now, rest := nextHe, now + {he}, rest[1..];
        ChainParts(he, rest);
      }
      ChainParts(he, rest);
      assert now == moved + SetOf(es);
    }

    /** How far the table has been emptied: the entries moved are those of the buckets before i. */
    ghost predicate MovedUpTo(moved: set<DictEntry<V>>, i: nat)
      reads `size, `chains, `all
    {
      size == |chains| && i <= size && moved <= all
      && forall e :: e in all ==> size > 0 && (e in moved <==> Bucket(e.key, size) < i)
    }

    lemma ChainToMove(moved: set<DictEntry<V>>, i: nat)
      requires Placed(all, chains) && MovedUpTo(moved, i) && i < size
      ensures NoRepeats(chains[i]) && SetOf(chains[i]) !! moved && SetOf(chains[i]) <= all
      ensures MovedUpTo(moved + SetOf(chains[i]), i + 1)
      ensures |all - moved| == |all - (moved + SetOf(chains[i]))| + |chains[i]|
    {
      SetOfSize(chains[i]);
      assert all - moved == (all - (moved + SetOf(chains[i]))) + SetOf(chains[i]);
    }

    lemma ChainsApart(i: nat)
      requires Placed(all, chains) && i < |chains|
      ensures forall k, e :: 0 <= k < |chains| && k != i && e in chains[k] ==> e !in SetOf(chains[i])
    {
    }

    /** Moves one bucket. The chains behind it stay as they are. */
    method MoveBucket(i: nat, n: array<DictEntry?<V>>, ghost moved: set<DictEntry<V>>, ghost chains0: seq<seq<DictEntry<V>>>)
      returns (ghost chains': seq<seq<DictEntry<V>>>)
      requires table != null && table != n && i < |chains|
      requires Placed(all, chains) && Linked(table, all, chains, i)
      requires NoRepeats(chains[i]) && SetOf(chains[i]) !! moved && used >= |chains[i]|
      requires chains0 != [] && n.Length == |chains0| && PowerOfTwo(n.Length) && Linked(n, moved, chains0, 0) && Placed(moved, chains0)
      modifies n, SetOf(chains[i])`next, `used
      ensures used == old(used) - |chains[i]| && |chains'| == |chains0|
      ensures Linked(n, moved + SetOf(chains[i]), chains', 0) && Placed(moved + SetOf(chains[i]), chains')
      ensures Linked(table, all, chains, i + 1)
    {
      hide Placed, Chain, NoRepeats, SetOf;
      ChainsApart(i);
      ghost var t := table[..];
      chains' := MoveChain(table[i], n, chains[i], moved, chains0);
      assert table[..] == t;
      forall k | i < k < |chains| ensures Chain(table[k], chains[k]) {
        assert table[k] == t[k];
      }
    }

    /** The state of the move: new table, entries moved, and the old chains still in place. */
    ghost predicate Moving(n: array<DictEntry?<V>>, moved: set<DictEntry<V>>, chains': seq<seq<DictEntry<V>>>, i: nat)
      reads this, table, all, n
    {
      && Placed(all, chains) && MovedUpTo(moved, i) && used == |all - moved|
      && n.Length > 0 && PowerOfTwo(n.Length) && |chains'| == n.Length
      && Linked(n, moved, chains', 0) && Placed(moved, chains')
      && (size > 0 ==> table != null && table != n && Linked(table, all, chains, i))
    }

    method MoveNext(i: nat, n: array<DictEntry?<V>>, ghost moved: set<DictEntry<V>>, ghost chains0: seq<seq<DictEntry<V>>>)
      returns (ghost chains': seq<seq<DictEntry<V>>>)
      requires i < size == |chains| && Moving(n, moved, chains0, i)
      modifies n, all`next, `used
      ensures Moving(n, moved + SetOf(chains[i]), chains', i + 1)
    {
      hide Placed, Chain, NoRepeats, SetOf, Linked, MovedUpTo, PowerOfTwo;
      ChainToMove(moved, i);
      assert used >= |chains[i]|;
      chains' := MoveBucket(i, n, moved, chains0);
    }

    /** Moves every entry to a new table; stops early when none is left. */
    method MoveAll(n: array<DictEntry?<V>>, ghost empty: seq<seq<DictEntry<V>>>) returns (ghost chains': seq<seq<DictEntry<V>>>)
      requires Sized() && Moving(n, {}, empty, 0)
      modifies n, all`next, `used
      ensures used == 0 && |chains'| == n.Length
      ensures Linked(n, all, chains', 0) && Placed(all, chains')
    {
      hide Moving, Placed, Linked;
      ghost var moved: set<DictEntry<V>> := {};
      chains' := empty;
      var i := 0;
      while i < size && used > 0
        invariant 0 <= i <= size && Moving(n, moved, chains', i)
      {
        chains' := MoveNext(i, n, moved, chains');
        moved := moved + SetOf(chains[i]);
        i := i + 1;
      }
      AllMoved(n, moved, chains', i);
    }

    lemma AllMoved(n: array<DictEntry?<V>>, moved: set<DictEntry<V>>, chains': seq<seq<DictEntry<V>>>, i: nat)
      requires Moving(n, moved, chains', i) && (i == size || used == 0)
      ensures moved == all && used == 0 && |chains'| == n.Length && Linked(n, all, chains', 0) && Placed(all, chains')
    {
      hide Placed, Linked;
    }

    lemma NothingMoved(n: array<DictEntry?<V>>, empty: seq<seq<DictEntry<V>>>)
      requires Valid() && n !in Repr && n.Length > 0 && PowerOfTwo(n.Length)
      requires |empty| == n.Length && forall i :: 0 <= i < n.Length ==> n[i] == null && empty[i] == []
      ensures Moving(n, {}, empty, 0)
    {
      assert all - {} == all;
    }

    /** A new, empty table. */
    method NewTable(realsize: nat) returns (n: array<DictEntry?<V>>, ghost empty: seq<seq<DictEntry<V>>>)
      requires Valid() && realsize > 0 && PowerOfTwo(realsize)
      ensures fresh(n) && n.Length == realsize && Moving(n, {}, empty, 0)
    {
      n := new DictEntry?<V>[realsize](i => null);
      empty := seq(realsize, i => []);
      NothingMoved(n, empty);
    }

    /** Puts the new table in the place of the old one. */
    method Remap(n: array<DictEntry?<V>>, count: nat, ghost chains': seq<seq<DictEntry<V>>>)
      requires this in Repr && (forall e :: e in all ==> e in Repr) && Distinct(all)
      requires n.Length == |chains'| && n.Length >= INITIAL_SIZE && PowerOfTwo(n.Length) && count == |all| <= n.Length
      requires Linked(n, all, chains', 0) && Placed(all, chains')
      modifies this
      ensures Valid() && all == old(all) && Repr == old(Repr) + {n} && size == n.Length
    {
      hide Linked, Placed, Distinct, PowerOfTwo;
      table, size, sizemask, used := n, n.Length, n.Length - 1, count;
      chains := chains';
      Repr := Repr + {n};
    }

    /** dictExpand: refused only when the entries would outnumber the size asked for. */
    method Expand(newSize: nat) returns (ok: bool)
      requires Valid()
      modifies this, table, all`next
      ensures Valid() && fresh(Repr - old(Repr)) && all == old(all)
      ensures ok <==> old(used) <= newSize
      ensures if ok then size >= newSize else size == old(size) && chains == old(chains)
      ensures ok ==> PowerOfTwo(size) && size >= 4 && (size > 4 ==> size / 2 < newSize)
    {
      hide Linked, Placed, Distinct, PowerOfTwo, Moving;
      var realsize := NextPower(newSize);
      if used > newSize {
        return false;
      }
      var n;
      ghost var empty;
      n, empty := NewTable(realsize);
      var count := used;
      ghost var chains' := MoveAll(n, empty);
      Remap(n, count, chains');
      ok := true;
    }

    /** The size of a table before one more entry: four at first, and doubled when it is full. */
    static function Grown(size: nat, used: nat): nat {
      if size == 0 then 4 else if used == size then 2 * size else size
    }

    static lemma Doubled(was: nat, size: nat)
      requires PowerOfTwo(was) && was >= 4 && PowerOfTwo(size) && size >= was * 2 && (size > 4 ==> size / 2 < was * 2)
      ensures size == 2 * was
    {
      assert PowerOfTwo(2 * was) by { assert 2 * was / 2 == was && 2 * was % 2 == 0; }
      OnePower(2 * was, size);
    }

    /** _dictExpandIfNeeded: afterwards there is room for one more entry. */
    method ExpandIfNeeded() returns (ok: bool)
      requires Valid()
      modifies this, table, all`next
      ensures Valid() && fresh(Repr - old(Repr)) && all == old(all)
      ensures ok && used < size && size == Grown(old(size), old(used))
    {
      hide Linked, Placed, Distinct;
      if size == 0 {
        ok := Expand(INITIAL_SIZE);
      } else if used == size {
        ghost var was := size;
        ok := Expand(size * 2);
        Doubled(was, size);
      } else {
        ok := true;
      }
    }

    /** _dictKeyIndex: the bucket for a new key, or -1 when the key is there. */
    method KeyIndex(key: Key) returns (index: int)
      requires Valid()
      modifies this, table, all`next
      ensures Valid() && fresh(Repr - old(Repr)) && all == old(all) && Contents() == old(Contents())
      ensures index == -1 <==> key in Contents()
      ensures index != -1 ==> used < size && index == Bucket(key, size)
      ensures size == Grown(old(size), old(used))
    {
      hide Linked, Placed, Distinct;
      var ok := ExpandIfNeeded();
      if !ok {
        return -1;
      }
      var he := Find(key);
      if he != null {
        return -1;
      }
      index := IndexOf(key);
    }

    lemma AddedMap(all0: set<DictEntry<V>>, entry: DictEntry<V>)
      requires Distinct(all0) && entry.key !in MapOf(all0)
      ensures Distinct(all0 + {entry}) && entry !in all0
      ensures MapOf(all0 + {entry}) == MapOf(all0)[entry.key := entry.val]
    {
      forall e | e in all0 ensures e.key != entry.key {
        assert e.key in MapOf(all0);
      }
    }

    /** Hangs a new entry in its bucket. */
    method Insert(entry: DictEntry<V>, index: nat)
      requires Valid() && entry !in Repr && Distinct(all + {entry}) && used < size && index == Bucket(entry.key, size)
      modifies this, table, entry`next
      ensures Valid() && all == old(all) + {entry} && Repr == old(Repr) + {entry} && size == old(size)
    {
      hide Linked, Placed, Distinct, PowerOfTwo;
      ghost var chains' := PushEntry(entry, table, index, all, chains);
      CountIn(entry, chains');
    }

    /** Counts an entry that now hangs in its bucket. */
    method CountIn(entry: DictEntry<V>, ghost chains': seq<seq<DictEntry<V>>>)
      requires this in Repr && (forall e :: e in all ==> e in Repr) && table != null && table in Repr
      requires Sized() && used < size == |chains'| && entry !in all && Distinct(all + {entry})
      requires Linked(table, all + {entry}, chains', 0) && Placed(all + {entry}, chains')
      modifies this
      ensures Valid() && all == old(all) + {entry} && Repr == old(Repr) + {entry} && size == old(size)
    {
      hide Linked, Placed, Distinct, PowerOfTwo;
      chains := chains';
      all := all + {entry};
      Repr := Repr + {entry};
      used := used + 1;
    }

    /** Makes and inserts the entry of a key that is not there. */
    method AddEntry(key: Key, val: V, index: nat)
      requires Valid() && key !in Contents() && used < size && index == Bucket(key, size)
      modifies Repr
      ensures Valid() && fresh(Repr - old(Repr)) && old(all) <= all && Contents() == old(Contents())[key := val] && size == old(size)
    {
      hide Linked, Placed, Distinct, MapOf, PowerOfTwo;
      var entry := new DictEntry(key, val, null);
      AddedMap(all, entry);
      Insert(entry, index);
    }

    /** dictAdd: adds a key that is not there. */
    method Add(key: Key, val: V) returns (ok: bool)
      requires Valid()
      modifies Repr
      ensures Valid() && fresh(Repr - old(Repr)) && old(all) <= all
      ensures ok <==> key !in old(Contents())
      ensures size == Grown(old(size), old(used))
      ensures Contents() == if ok then old(Contents())[key := val] else old(Contents())
    {
      hide Linked, Placed, Distinct, MapOf, PowerOfTwo;
      var index := KeyIndex(key);
      if index == -1 {
        return false;
      }
      AddEntry(key, val, index);
      ok := true;
    }

    lemma ReplacedMap(all: set<DictEntry<V>>, entry: DictEntry<V>, was: map<Key, V>)
      requires Distinct(all) && entry in all
      requires was.Keys == MapOf(all).Keys
      requires forall e :: e in all && e != entry ==> was[e.key] == e.val
      ensures MapOf(all) == was[entry.key := entry.val]
    {
    }

    method SetVal(entry: DictEntry<V>, val: V)
      requires Valid() && entry in all
      modifies entry`val
      ensures Valid() && Contents() == old(Contents())[entry.key := val] && size == old(size)
    {
      hide Linked, Placed, PowerOfTwo;
      ghost var was := Contents();
      entry.val := val;
      assert MapOf(all).Keys == was.Keys;
      ReplacedMap(all, entry, was);
    }

    /** dictReplace: true when the key was not there. */
    method Replace(key: Key, val: V) returns (added: bool)
      requires Valid()
      modifies Repr
      ensures Valid() && fresh(Repr - old(Repr)) && old(all) <= all
      ensures added <==> key !in old(Contents())
      ensures size == Grown(old(size), old(used))
      ensures Contents() == old(Contents())[key := val]
    {
      hide Linked, Placed, Distinct, MapOf, PowerOfTwo;
      added := Add(key, val);
      if !added {
        var entry := Find(key);
        SetVal(entry, val);
      }
    }

    lemma RemovedMap(all: set<DictEntry<V>>, gone: DictEntry<V>)
      requires Distinct(all) && gone in all
      ensures Distinct(all - {gone}) && MapOf(all - {gone}) == MapOf(all) - {gone.key}
    {
      forall k | k in MapOf(all) - {gone.key} ensures k in MapOf(all - {gone}) {
        var e :| e in all && e.key == k;
        assert e in all - {gone};
      }
    }

    /** Uncounts an entry that no longer hangs in the table. */
    method CountOut(ghost gone: DictEntry<V>, ghost chains': seq<seq<DictEntry<V>>>)
      requires this in Repr && (forall e :: e in all ==> e in Repr) && table != null && table in Repr
      requires Sized() && gone in all && size == |chains'| && Distinct(all - {gone})
      requires Linked(table, all - {gone}, chains', 0) && Placed(all - {gone}, chains')
      modifies `used, `chains, `all
      ensures Valid() && chains == chains' && all == old(all) - {gone}
    {
      hide Linked, Placed, Distinct, PowerOfTwo;
      used := used - 1;
      chains := chains';
      all := all - {gone};
    }

    /** Takes an entry out of its chain and out of the count. */
    method Remove(index: nat, prevde: DictEntry?<V>, de: DictEntry<V>, ghost j: nat)
      requires Valid() && index < |chains| && j < |chains[index]|
      requires de == chains[index][j] && prevde == (if j > 0 then chains[index][j - 1] else null)
      modifies this, table, all`next
      ensures Valid() && Repr == old(Repr) && table == old(table) && size == old(size)
      ensures all == old(all) - {de} && chains == old(chains)[index := Without(old(chains)[index], j)]
      ensures de in old(all) && Contents() == old(Contents()) - {de.key}
    {
      hide Linked, MapOf, PowerOfTwo, Without;
      assert de in chains[index];
      RemovedMap(all, de);
      WithoutPlaced(all, chains, index, j);
      Unlink(table, index, prevde, de, all, chains, j);
      CountOut(de, chains[index := Without(chains[index], j)]);
    }

    lemma ChainOf(key: Key)
      requires Valid() && size > 0
      ensures table != null && Bucket(key, size) < |chains| && Bucket(key, size) < table.Length
      ensures var es := chains[Bucket(key, size)];
        && Chain(table[Bucket(key, size)], es)
        && (forall e :: e in es ==> e in all)
        && (key in Contents() <==> exists e :: e in es && e.key == key)
    {
      if key in Contents() {
        var e :| e in all && e.key == key;
        assert e in chains[Bucket(key, size)];
      }
    }

    /** dictDelete. Says which entry of which chain it took out. */
    method Delete(key: Key) returns (ok: bool, ghost h: nat, ghost j: nat)
      requires Valid()
      modifies this, table, all`next
      ensures Valid() && Repr == old(Repr) && table == old(table) && size == old(size)
      ensures ok <==> key in old(Contents())
      ensures Contents() == old(Contents()) - {key}
      ensures !ok ==> all == old(all) && chains == old(chains)
      ensures ok ==>
        && h < |old(chains)| && j < |old(chains)[h]| && old(chains)[h][j].key == key
        && all == old(all) - {old(chains)[h][j]} && chains == old(chains)[h := Without(old(chains)[h], j)]
    {
      hide Linked, Placed, Distinct, MapOf, PowerOfTwo, Without;
      h, j := 0, 0;
      if size == 0 {
        NoEntries();
        return false, 0, 0;
      }
      var index := IndexOf(key);
      h := index;
      ChainOf(key);
      ghost var es := chains[h];
      var prevde: DictEntry?<V>, de := null, table[index];
      while de != null
        invariant 0 <= j <= |es| && de == (if j < |es| then es[j] else null) && prevde == (if j > 0 then es[j - 1] else null)
        invariant forall i :: 0 <= i < j ==> es[i].key != key
        decreases |es| - j
      {
        if de.key == key {
          Remove(index, prevde, de, j);
          return true, h, j;
        }
        assert es[j].next == de.next;
        prevde := de;
        de := de.next;
        j := j + 1;
      }
      ok := false;
    }

    lemma NoEntries()
      requires Valid() && size == 0
      ensures Contents() == map[]
    {
    }

    lemma ChainAt(i: nat)
      requires Valid() && i < size
      ensures size == |chains| && table != null && i < table.Length && Chain(table[i], chains[i])
    {
    }
  }

  // ----- Any sequence of operations -----

  datatype Op<V> = AddOp(key: Key, val: V) | ReplaceOp(key: Key, val: V) | DeleteOp(key: Key)

  /** What an operation does to a finite map. */
  function Applied<V>(m: map<Key, V>, op: Op<V>): map<Key, V> {
    match op
    case AddOp(key, val) => if key in m then m else m[key := val]
    case ReplaceOp(key, val) => m[key := val]
    case DeleteOp(key) => m - {key}
  }

  function AllApplied<V>(m: map<Key, V>, ops: seq<Op<V>>): map<Key, V>
    decreases |ops|
  {
    if ops == [] then m else AllApplied(Applied(m, ops[0]), ops[1..])
  }

  /** A table that has been through any sequence of operations, growing as it went, is the map they make. */
  method Replay<V>(ops: seq<Op<V>>) returns (ht: Dict<V>)
    ensures ht.Valid() && ht.Contents() == AllApplied(map[], ops)
  {
    hide Linked, Placed, Distinct, MapOf, PowerOfTwo, Dict.Sized;
    ht := new Dict();
    var i := 0;
    assert ops[0..] == ops;
    while i < |ops|
      invariant 0 <= i <= |ops| && ht.Valid() && fresh(ht.Repr)
      invariant AllApplied(ht.Contents(), ops[i..]) == AllApplied(map[], ops)
    {
      assert ops[i..][0] == ops[i] && ops[i..][1..] == ops[i + 1..];
      ApplyOp(ht, ops[i]);
      i := i + 1;
    }
  }

  method ApplyOp<V>(ht: Dict<V>, op: Op<V>)
    requires ht.Valid()
    modifies ht.Repr
    ensures ht.Valid() && fresh(ht.Repr - old(ht.Repr))
    ensures ht.Contents() == Applied(old(ht.Contents()), op)
  {
    hide Linked, Placed, Distinct, MapOf, PowerOfTwo, Dict.Sized;
    match op
    case AddOp(key, val) =>
      var ok := ht.Add(key, val);
    case ReplaceOp(key, val) =>
      var added := ht.Replace(key, val);
    case DeleteOp(key) =>
      var ok;
      ghost var h, j;
      ok, h, j := ht.Delete(key);
  }
}
