/** Iterating over a hash table while entries already seen are deleted from it. */
module DictIteration {
  import opened Dict

  type Chains<V> = seq<seq<DictEntry<V>>>

  /** The entries of chain number i and of those behind it, in the order of the table. */
  ghost function From<V>(chains: Chains<V>, i: nat): seq<DictEntry<V>>
    decreases |chains| - i
  {
    if i >= |chains| then [] else chains[i] + From(chains, i + 1)
  }

  lemma {:induction false} FromMembers<V>(chains: Chains<V>, i: nat, e: DictEntry<V>)
    ensures e in From(chains, i) <==> exists k :: i <= k < |chains| && e in chains[k]
    decreases |chains| - i
  {
    if i < |chains| {
      FromMembers(chains, i + 1, e);
      assert e in From(chains, i) <==> e in chains[i] || e in From(chains, i + 1);
      if k :| i <= k < |chains| && e in chains[k] {
        assert k == i || i + 1 <= k;
      }
    }
  }

  lemma Concatenation<V>(a: seq<DictEntry<V>>, b: seq<DictEntry<V>>)
    requires NoRepeats(a) && NoRepeats(b) && forall e :: e in b ==> e !in a
    ensures NoRepeats(a + b)
  {
    var s := a + b;
    forall i, j | 0 <= i < j < |s| ensures s[i] != s[j] {
      if i < |a| <= j {
        assert s[i] in a && s[j] in b;
      }
    }
  }

  lemma {:induction false} FromNoRepeats<V>(all: set<DictEntry<V>>, chains: Chains<V>, i: nat)
    requires Placed(all, chains)
    ensures NoRepeats(From(chains, i))
    decreases |chains| - i
  {
    if i < |chains| {
      FromNoRepeats(all, chains, i + 1);
      forall e | e in From(chains, i + 1) ensures e !in chains[i] {
        FromMembers(chains, i + 1, e);
      }
      Concatenation(chains[i], From(chains, i + 1));
    }
  }

  /** A change to an earlier chain does not show. */
  lemma {:induction false} FromBehind<V>(chains: Chains<V>, h: nat, es: seq<DictEntry<V>>, i: nat)
    requires h < i && h < |chains|
    ensures From(chains[h := es], i) == From(chains, i)
    decreases |chains| - i
  {
    if i < |chains| {
      FromBehind(chains, h, es, i + 1);
    }
  }

  /** What an iterator that has saved nextEntry in chain number index still has to visit. */
  ghost predicate Saved<V>(chains: Chains<V>, index: nat, nextEntry: DictEntry?<V>, at: nat, left: seq<DictEntry<V>>) {
    && index < |chains| && at <= |chains[index]|
    && nextEntry == (if at < |chains[index]| then chains[index][at] else null)
    && left == chains[index][at..] + From(chains, index + 1)
  }

  ghost predicate Pending<V>(chains: Chains<V>, index: int, entry: DictEntry?<V>, nextEntry: DictEntry?<V>, left: seq<DictEntry<V>>) {
    if entry == null then index >= -1 && left == From(chains, index + 1)
    else index >= 0 && exists at: nat :: Saved(chains, index, nextEntry, at, left)
  }

  /** Deleting an entry that is not to be visited any more leaves the iterator with the same entries to visit. */
  lemma {:induction false} PendingSurvives<V>(all: set<DictEntry<V>>, chains: Chains<V>, h: nat, j: nat,
      index: int, entry: DictEntry?<V>, nextEntry: DictEntry?<V>, left: seq<DictEntry<V>>)
    requires Placed(all, chains) && h < |chains| && j < |chains[h]| && chains[h][j] !in left
    requires Pending(chains, index, entry, nextEntry, left)
    ensures Pending(chains[h := Without(chains[h], j)], index, entry, nextEntry, left)
  {
    var gone, chains' := chains[h][j], chains[h := Without(chains[h], j)];
    assert gone in chains[h];
    FromMembers(chains, index + 1, gone);
    assert h < index + 1;
    FromBehind(chains, h, Without(chains[h], j), index + 1);
    if entry != null {
      var at: nat :| Saved(chains, index, nextEntry, at, left);
      if h == index {
        assert j < at;
        assert chains'[index][at - 1..] == chains[index][at..];
        assert Saved(chains', index, nextEntry, at - 1, left);
      } else {
        assert Saved(chains', index, nextEntry, at, left);
      }
    }
  }

  class DictIterator<V> {
    const ht: Dict<V>
    var index: int
    var entry: DictEntry?<V>
    var nextEntry: DictEntry?<V>
    ghost var left: seq<DictEntry<V>> // the entries still to be returned

    ghost predicate Valid()
      reads this, ht
    {
      Pending(ht.chains, index, entry, nextEntry, left)
    }

    /** dictGetIterator. */
    constructor (ht: Dict<V>)
      ensures Valid() && this.ht == ht && left == From(ht.chains, 0)
    {
      this.ht := ht;
      index, entry, nextEntry := -1, null, null;
      left := From(ht.chains, 0);
    }

    /** Steps into the next chain. */
    method NextChain()
      requires Valid() && ht.Valid() && entry == null && index + 1 < ht.size
      modifies `index, `entry
      ensures index == old(index) + 1 && index < |ht.chains|
      ensures entry == null ==> Valid()
      ensures entry != null ==> left == ht.chains[index] + From(ht.chains, index + 1)
      ensures entry != null ==> ht.chains[index] != [] && entry == ht.chains[index][0]
    {
      ht.ChainAt(index + 1);
      index := index + 1;
      entry := ht.table[index];
      assert ht.chains[index] == [] ==> left == From(ht.chains, index + 1);
    }

    /** Saves the entry behind the one about to be returned, which the caller may delete. */
    method Save(ghost at: nat) returns (he: DictEntry<V>)
      requires ht.Valid() && 0 <= index < |ht.chains| && at < |ht.chains[index]| && entry == ht.chains[index][at]
      requires left == ht.chains[index][at..] + From(ht.chains, index + 1)
      modifies `nextEntry, `left
      ensures Valid() && old(left) != [] && he == old(left)[0] && left == old(left)[1..]
    {
      ht.ChainAt(index);
      ghost var es := ht.chains[index];
      assert es[at].next == entry.next;
      nextEntry := entry.next;
      left := left[1..];
      assert left == es[at + 1..] + From(ht.chains, index + 1);
      assert Saved(ht.chains, index, nextEntry, at + 1, left);
      he := entry;
    }

    /** dictNext: the next entry to visit, or null when there is none. */
    method Next() returns (he: DictEntry?<V>)
      requires Valid() && ht.Valid()
      modifies this
      ensures Valid()
      ensures old(left) == [] ==> he == null && left == []
      ensures old(left) != [] ==> he == old(left)[0] && left == old(left)[1..]
    {
      hide Linked, Placed, Distinct;
      ghost var at: nat := 0;
      while true
        invariant Valid() && left == old(left)
        decreases ht.size - index, if entry == null then 0 else 1
      {
        if entry == null {
          if index + 1 >= ht.size {
            index := index + 1;
            return null;
          }
          NextChain();
          at := 0;
        } else {
          at :| Saved(ht.chains, index, nextEntry, at, left);
          entry := nextEntry;
        }
        if entry != null {
          he := Save(at);
          return;
        }
      }
    }
  }

  /** The entries an iterator starts with are those of the table, each once. */
  lemma AllToVisit<V>(ht: Dict<V>)
    requires ht.Valid()
    ensures NoRepeats(From(ht.chains, 0)) && SetOf(From(ht.chains, 0)) == ht.all
  {
    FromNoRepeats(ht.all, ht.chains, 0);
    MembersOf(ht.all, ht.chains, From(ht.chains, 0));
  }

  lemma MembersOf<V>(all: set<DictEntry<V>>, chains: Chains<V>, todo: seq<DictEntry<V>>)
    requires Placed(all, chains) && todo == From(chains, 0)
    ensures SetOf(todo) == all
  {
    forall e ensures e in todo <==> e in all {
      FromMembers(chains, 0, e);
    }
  }

  /** Deletes an entry already returned; the iterator does not notice. */
  method DeleteReturned<V>(ht: Dict<V>, iter: DictIterator<V>, he: DictEntry<V>)
    requires ht.Valid() && iter.Valid() && iter.ht == ht && he in ht.all && he !in iter.left
    modifies ht, ht.table, ht.all`next
    ensures ht.Valid() && iter.Valid() && ht.table == old(ht.table) && ht.Repr == old(ht.Repr)
    ensures ht.all == old(ht.all) - {he} && ht.Contents() == old(ht.Contents()) - {he.key}
  {
    hide Linked, MapOf, Pending, Without;
    ghost var all, chains := ht.all, ht.chains;
    assert he.key in ht.Contents() by { KeyThere(ht, he); }
    var ok;
    ghost var h, j;
    ok, h, j := ht.Delete(he.key);
    assert chains[h][j] in chains[h];
    PendingSurvives(all, chains, h, j, iter.index, iter.entry, iter.nextEntry, iter.left);
  }

  lemma KeyThere<V>(ht: Dict<V>, he: DictEntry<V>)
    requires ht.Valid() && he in ht.all
    ensures he.key in ht.Contents()
  {
  }

  /** The state of an iteration that has returned the entries visited and now he. */
  ghost predicate Visiting<V>(iter: DictIterator<V>, todo: seq<DictEntry<V>>, visited: seq<DictEntry<V>>, he: DictEntry?<V>)
    reads iter, iter.ht, iter.ht.Repr
  {
    && iter.ht.Valid() && iter.Valid()
    && (he == null ==> iter.left == [])
    && visited + (if he == null then [] else [he]) + iter.left == todo
    && (he != null ==> he in iter.ht.all)
    && (forall e :: e in iter.left ==> e in iter.ht.all)
  }

  /** A new iterator and the first entry. */
  method Begin<V>(ht: Dict<V>) returns (iter: DictIterator<V>, he: DictEntry?<V>)
    requires ht.Valid()
    ensures fresh(iter) && iter.ht == ht && Visiting(iter, From(ht.chains, 0), [], he)
  {
    hide From, NoRepeats, Dict.Valid, DictIterator.Valid;
    AllToVisit(ht);
    iter := new DictIterator(ht);
    ghost var todo := iter.left;
    he := iter.Next();
    assert he != null ==> todo[0] in todo;
    assert forall e :: e in iter.left ==> e in todo;
    assert [] + (if he == null then [] else [he]) + iter.left == todo;
  }

  /** One round: keeps or deletes the entry just returned, and goes on to the next. */
  method VisitNext<V>(iter: DictIterator<V>, he: DictEntry<V>, doomed: set<Key>,
      ghost todo: seq<DictEntry<V>>, ghost visited: seq<DictEntry<V>>)
    returns (next: DictEntry?<V>)
    requires NoRepeats(todo) && Visiting(iter, todo, visited, he)
    modifies iter, iter.ht, iter.ht.table, iter.ht.all`next
    ensures Visiting(iter, todo, visited + [he], next)
    ensures var ht := iter.ht; ht.table == old(ht.table) && ht.all <= old(ht.all) && ht.Repr == old(ht.Repr)
    ensures iter.ht.Contents() == old(iter.ht.Contents()) - (doomed * {he.key})
  {
    hide Linked, Placed, MapOf, Pending;
    ReturnedOnce(todo, visited, he, iter.left);
    if he.key in doomed {
      DeleteReturned(iter.ht, iter, he);
      assert doomed * {he.key} == {he.key};
    } else {
      assert doomed * {he.key} == {};
    }
    next := iter.Next();
  }

  lemma ReturnedOnce<V>(todo: seq<DictEntry<V>>, visited: seq<DictEntry<V>>, he: DictEntry<V>, left: seq<DictEntry<V>>)
    requires NoRepeats(todo) && visited + [he] + left == todo
    ensures he !in left && NoRepeats(left)
  {
    assert todo[|visited|] == he;
    forall i | 0 <= i < |left| ensures left[i] != he {
      assert todo[|visited| + 1 + i] == left[i];
    }
    forall i, j | 0 <= i < j < |left| ensures left[i] != left[j] {
      assert todo[|visited| + 1 + i] == left[i] && todo[|visited| + 1 + j] == left[j];
    }
  }

  /**
   Iterates to the end, deleting as it goes each entry just returned whose key is doomed. Every entry
   present at the start is returned exactly once, whichever are deleted.
   */
  method VisitAll<V>(ht: Dict<V>, doomed: set<Key>) returns (visited: seq<DictEntry<V>>)
    requires ht.Valid()
    modifies ht, ht.table, ht.all`next
    ensures ht.Valid() && NoRepeats(visited) && SetOf(visited) == old(ht.all)
    ensures ht.Contents() == old(ht.Contents()) - doomed
  {
    hide From, NoRepeats, KeysOf, Dict.Valid, DictIterator.Valid, MapOf;
    AllToVisit(ht);
    KeysToVisit(ht);
    ghost var todo, all, was := From(ht.chains, 0), ht.all, ht.Contents();
    var iter, he := Begin(ht);
    visited := [];
    assert KeysOf(visited) == {} && was - {} == was by { NoKeys<V>(); }
    while he != null
      invariant iter.ht == ht && Visiting(iter, todo, visited, he) && ht.table == old(ht.table) && ht.all <= all
      invariant ht.Contents() == was - (doomed * KeysOf(visited))
      decreases |todo| - |visited|
    {
      ghost var before := visited;
      visited := visited + [he];
      KeysOfLast(before, he);
      assert doomed * KeysOf(visited) == doomed * KeysOf(before) + doomed * {he.key};
      he := VisitNext(iter, he, doomed, todo, before);
    }
    assert visited == todo && was - (doomed * KeysOf(todo)) == was - doomed;
  }

  ghost function KeysOf<V>(es: seq<DictEntry<V>>): set<Key> {
    set e | e in es :: e.key
  }

  lemma KeysToVisit<V>(ht: Dict<V>)
    requires ht.Valid()
    ensures ht.Contents().Keys == KeysOf(From(ht.chains, 0))
  {
    AllToVisit(ht);
    forall k ensures k in ht.Contents().Keys <==> k in KeysOf(From(ht.chains, 0)) {
      if k in ht.Contents() {
        var e :| e in ht.all && e.key == k;
        assert e in From(ht.chains, 0);
      }
      if k in KeysOf(From(ht.chains, 0)) {
        var e :| e in From(ht.chains, 0) && e.key == k;
        KeyThere(ht, e);
      }
    }
  }

  lemma KeysOfLast<V>(es: seq<DictEntry<V>>, e: DictEntry<V>)
    ensures KeysOf(es + [e]) == KeysOf(es) + {e.key}
  {
    assert e in es + [e];
  }

  lemma NoKeys<V>()
    ensures KeysOf<V>([]) == {}
  {
  }
}
