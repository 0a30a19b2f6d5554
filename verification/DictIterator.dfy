/** Iteration over a hash table whose returned entries may be deleted on the way. */
module DictIterators {
  import opened Dicts

  /** The entries of the buckets behind bucket `index`. */
  ghost function Above<K, V>(entries: set<Entry<K, V>>, hash: K -> nat, size: nat, index: int): set<Entry<K, V>> {
    set e | e in entries && size > 0 && Slot(hash(e.key), size) > index
  }

  lemma AboveStep<K, V>(chains: seq<seq<Entry<K, V>>>, entries: set<Entry<K, V>>, hash: K -> nat, i: nat)
    requires Placed(chains, entries, hash) && i < |chains|
    ensures Above(entries, hash, |chains|, i - 1) == Members(chains[i]) + Above(entries, hash, |chains|, i)
    ensures Members(chains[i]) !! Above(entries, hash, |chains|, i)
  {
    assert Listed(chains[i], entries) && InSlot(chains[i], i, |chains|, hash);
    forall e | e in Above(entries, hash, |chains|, i - 1) && e !in Above(entries, hash, |chains|, i)
      ensures e in Members(chains[i])
    {
      assert e in chains[Slot(hash(e.key), |chains|)];
    }
  }

  ghost predicate EndsWith<T>(c: seq<T>, t: seq<T>) {
    |t| <= |c| && c[|c| - |t|..] == t
  }

  lemma InEnd<T>(c: seq<T>, j: nat, t: seq<T>)
    requires EndsWith(c, t) && |c| - |t| <= j < |c|
    ensures c[j] in t
  {
    assert c[|c| - |t|..][j - (|c| - |t|)] == c[j];
  }

  lemma EndsWithout<T>(c: seq<T>, j: nat, t: seq<T>)
    requires j < |c| && EndsWith(c, t) && c[j] !in t
    ensures EndsWith(Without(c, j), t)
  {
    hide Without;
    var k, r := |c| - |t|, Without(c, j);
    if j >= k {
      InEnd(c, j, t);
    }
    forall i | 0 <= i < |t|
      ensures r[k - 1..][i] == t[i]
    {
      assert c[k..][i] == t[i];
    }
    assert r[k - 1..] == t;
  }

  lemma FirstTaken<T>(e: T, rest: set<T>, above: set<T>)
    requires e !in rest && e !in above
    ensures rest + above == {e} + rest + above - {e}
  {
  }

  class Iterator<K(==), V> {
    const ht: Dict<K, V>
    var index: int
    var entry: Entry?<K, V>
    var nextEntry: Entry?<K, V>
    /** What is left of the current bucket. */
    ghost var tail: seq<Entry<K, V>>

    ghost predicate Valid()
      reads this, ht, ht.table, ht.entries
    {
      && ht.Valid() && -1 <= index
      && (entry == null ==> tail == [])
      && (entry != null ==>
            && 0 <= index < ht.size && EndsWith(ht.chains[index], tail)
            && nextEntry == if tail == [] then null else tail[0])
    }

    /** The entries that are still to be returned. */
    ghost function Todo(): set<Entry<K, V>>
      reads this, ht
    {
      Members(tail) + Above(ht.entries, ht.hash, ht.size, index)
    }

    /** dictGetIterator */
    constructor (ht: Dict<K, V>)
      requires ht.Valid()
      ensures Valid() && this.ht == ht && Todo() == ht.entries
    {
      this.ht := ht;
      index, entry, nextEntry, tail := -1, null, null, [];
    }

    /** dictNext: one of the entries still to come, or null when there is none. */
    method Next() returns (e: Entry?<K, V>)
      requires Valid()
      modifies this
      ensures Valid() && e == entry
      ensures e == null ==> old(Todo()) == {} == Todo()
      ensures e != null ==> e in old(Todo()) && e in ht.entries && Todo() == old(Todo()) - {e}
    {
      hide Dict.Valid, Members, Above, EndsWith, IsChain;
      while true
        invariant Valid() && Todo() == old(Todo())
        decreases ht.size - index, entry != null
      {
        ghost var c := tail;
        if entry == null {
          SizeFacts(index + 1);
          index := index + 1;
          if index >= ht.size {
            return null;
          }
          BucketFacts(index);
          entry := ht.table[index];
          c := ht.chains[index];
        } else {
          SizeFacts(index);
          entry := nextEntry;
        }
        if entry != null {
          Take(c);
          return entry;
        }
        tail := [];
      }
    }

    /** The entry found is remembered together with its successor. */
    method Take(ghost c: seq<Entry<K, V>>)
      requires ht.Valid() && 0 <= index < ht.size == |ht.chains| && EndsWith(ht.chains[index], c)
      requires c != [] && entry == c[0]
      modifies `nextEntry, `tail
      ensures Valid() && entry in ht.entries && entry in Members(c)
      ensures Todo() == Members(c) + Above(ht.entries, ht.hash, ht.size, index) - {entry}
    {
      hide Dict.Valid, Members, Above, EndsWith, IsChain;
      nextEntry := entry.next;
      TailFacts(index, c);
      FirstTaken(entry, Members(c[1..]), Above(ht.entries, ht.hash, ht.size, index));
      tail := c[1..];
    }

    lemma SizeFacts(i: nat)
      requires ht.Valid()
      ensures ht.table.Length == ht.size == |ht.chains|
      ensures i >= ht.size ==>
                Above(ht.entries, ht.hash, ht.size, i - 1) == {} && Above(ht.entries, ht.hash, ht.size, i) == {}
      ensures Members<K, V>([]) == {}
    {
    }

    lemma BucketFacts(i: nat)
      requires ht.Valid() && i < ht.size
      ensures ht.table.Length == ht.size == |ht.chains|
      ensures var c := ht.chains[i];
              ht.table[i] == (if c == [] then null else c[0]) && EndsWith(c, c)
      ensures Above(ht.entries, ht.hash, ht.size, i - 1)
           == Members(ht.chains[i]) + Above(ht.entries, ht.hash, ht.size, i)
      ensures Members(ht.chains[i]) !! Above(ht.entries, ht.hash, ht.size, i)
      ensures Members(ht.chains[i]) <= ht.entries
    {
      AboveStep(ht.chains, ht.entries, ht.hash, i);
      assert Listed(ht.chains[i], ht.entries) && IsChain(ht.table[i], ht.chains[i]);
      assert ht.chains[i][0..] == ht.chains[i];
    }

    /** The head of a rest of a chain, and its link. */
    lemma TailFacts(i: nat, c: seq<Entry<K, V>>)
      requires ht.Valid() && i < ht.size == |ht.chains| && EndsWith(ht.chains[i], c) && c != []
      ensures c[0] !in Above(ht.entries, ht.hash, ht.size, i)
      ensures c[0] in ht.entries && c[0] !in c[1..] && EndsWith(ht.chains[i], c[1..])
      ensures c[0].next == if c[1..] == [] then null else c[1]
      ensures Members(c) == {c[0]} + Members(c[1..]) && c[0] !in Members(c[1..])
    {
      var all := ht.chains[i];
      var k := |all| - |c|;
      assert IsChain(ht.table[i], all) && Listed(all, ht.entries);
      assert all[k] == c[0] && all[k].next == Successor(all, k);
      assert InSlot(all, i, ht.size, ht.hash);
    }

    /** The user of the iterator deletes an entry that it has returned: what is
        still to come does not change. */
    method DeleteReturned(e: Entry<K, V>)
      requires Valid() && e in ht.entries && e !in Todo()
      modifies ht`used, ht`chains, ht`entries, ht`contents, ht.table, ht.entries`next
      ensures Valid() && Todo() == old(Todo())
      ensures ht.entries == old(ht.entries) - {e} && ht.contents == old(ht.contents) - {e.key}
    {
      hide EndsWith, Dict.Valid;
      ghost var chains := ht.chains;
      OnlyHolder(e);
      ghost var above := Above(ht.entries, ht.hash, ht.size, index);
      var ok;
      ghost var h, j;
      ok, h, j := ht.Delete(e.key);
      assert chains[h][j] == e;
      assert Above(ht.entries, ht.hash, ht.size, index) == above;
      if entry != null && h == index {
        assert e !in tail;
        EndsWithout(chains[h], j, tail);
      }
    }

    lemma OnlyHolder(e: Entry<K, V>)
      requires ht.Valid() && e in ht.entries
      ensures e.key in ht.contents
      ensures forall x :: x in ht.entries && x.key == e.key ==> x == e
      ensures ht.size == |ht.chains|
    {
    }
  }

  /** In the middle of an iteration: some entries have been handled, one may be
      in hand, the others are to come. */
  ghost predicate Scanned<K, V>(all: set<Entry<K, V>>, got: seq<Entry<K, V>>, e: Entry?<K, V>, todo: set<Entry<K, V>>) {
    && Distinct(got) && Members(got) !! todo
    && (e != null ==> e !in got && e !in todo)
    && all == Members(got) + todo + if e == null then {} else {e}
  }

  lemma {:induction false} MembersAppend<K, V>(got: seq<Entry<K, V>>, e: Entry<K, V>)
    ensures Members(got + [e]) == Members(got) + {e}
  {
    assert (got + [e])[|got|] == e;
    forall x | x in got
      ensures x in got + [e]
    {
    }
  }

  /** The entry in hand has been handled, and the next one is in hand. */
  lemma ScanStep<K, V>(all: set<Entry<K, V>>, got: seq<Entry<K, V>>, e: Entry<K, V>, todo: set<Entry<K, V>>,
                       next: Entry?<K, V>, todo': set<Entry<K, V>>)
    requires Scanned(all, got, e, todo)
    requires if next == null then todo == {} == todo' else next in todo && todo' == todo - {next}
    ensures Scanned(all, got + [e], next, todo')
  {
    MembersAppend(got, e);
  }

  /** The handled entries that were to be deleted. */
  ghost function Deleted<K, V>(got: seq<Entry<K, V>>, deletes: nat -> bool): (r: set<Entry<K, V>>)
    ensures r <= Members(got)
    ensures forall i :: 0 <= i < |got| && deletes(i) ==> got[i] in r
    ensures forall e :: e in r ==> exists i :: 0 <= i < |got| && deletes(i) && got[i] == e
  {
    set i | 0 <= i < |got| && deletes(i) :: got[i]
  }

  lemma DeletedStep<K, V>(got: seq<Entry<K, V>>, e: Entry<K, V>, deletes: nat -> bool)
    ensures Deleted(got + [e], deletes) == Deleted(got, deletes) + if deletes(|got|) then {e} else {}
  {
    var more := got + [e];
    forall x | x in Deleted(got, deletes)
      ensures x in Deleted(more, deletes)
    {
      var i :| 0 <= i < |got| && deletes(i) && got[i] == x;
      assert more[i] == x;
    }
    assert more[|got|] == e;
  }

  lemma StartScan<K, V>(all: set<Entry<K, V>>, e: Entry?<K, V>, todo: set<Entry<K, V>>, deletes: nat -> bool)
    requires if e == null then all == {} == todo else e in all && todo == all - {e}
    ensures Scanned(all, [], e, todo) && Deleted<K, V>([], deletes) == {}
  {
  }

  /** A whole iteration, as in the loops of __redisAsyncFree, whose user deletes
      the i-th entry it is given whenever deletes(i): every entry of the table
      comes exactly once, and only the deleted ones are missing afterwards. */
  method Scan<K(==), V>(ht: Dict<K, V>, deletes: nat -> bool) returns (got: seq<Entry<K, V>>)
    requires ht.Valid()
    modifies ht`used, ht`chains, ht`entries, ht`contents, ht.table, ht.entries`next
    ensures ht.Valid() && Distinct(got) && Members(got) == old(ht.entries)
    ensures ht.entries == old(ht.entries) - Deleted(got, deletes)
  {
    hide Dict.Valid, Members, Iterator.Todo, Deleted, Distinct, Above, EndsWith;
    ghost var all := ht.entries;
    var it := new Iterator(ht);
    got := [];
    var e := it.Next();
    StartScan(all, e, it.Todo(), deletes);
    while e != null
      invariant it.ht == ht && it.Valid() && fresh(it)
      invariant Scanned(all, got, e, it.Todo())
      invariant e == null ==> it.Todo() == {}
      invariant ht.entries == all - Deleted(got, deletes)
      decreases it.Todo(), e != null
    {
      ghost var todo := it.Todo();
      DeletedStep(got, e, deletes);
      if deletes(|got|) {
        it.DeleteReturned(e);
      }
      var last: Entry<K, V> := e;
      got := got + [last];
      e := it.Next();
      ScanStep(all, got[..|got| - 1], last, todo, e, it.Todo());
    }
  }
}
