/**
  The chained hash table, proved to be a finite map.

  The ghost field `chains` lists the entries of every bucket in order; `entries`
  collects them; `contents` is the map.
 */
module Dicts {

  const INITIAL_SIZE: nat := 4

  /** Bucket indices are C ints. */
  const SIZE_LIMIT: nat := 0x4000_0000

  const PORT_LONG_MAX: nat := 0x7FFF_FFFF_FFFF_FFFF

  // ---------- Sizes and masks ----------

  predicate IsPowerOfTwo(n: nat) {
    n == 1 || (n > 1 && n % 2 == 0 && IsPowerOfTwo(n / 2))
  }

  /** The & of two numbers, bit by bit. */
  function BitAnd(a: nat, b: nat): nat
    decreases b
  {
    if b == 0 then 0 else 2 * BitAnd(a / 2, b / 2) + (a % 2) * (b % 2)
  }

  /** The bucket of a hash value. */
  function Slot(h: nat, size: nat): (i: nat)
    requires size > 0
    ensures i < size
  {
    h % size
  }

  /** Masking with size - 1 takes the remainder, because sizes are powers of two. */
  lemma {:induction false} MaskIsRemainder(h: nat, size: nat)
    requires IsPowerOfTwo(size)
    ensures BitAnd(h, size - 1) == Slot(h, size)
    decreases size
  {
    if size > 1 {
      var m := size / 2;
      MaskIsRemainder(h / 2, m);
      assert (size - 1) / 2 == m - 1 && (size - 1) % 2 == 1;
      HalfRemainder(h, m);
    }
  }

  lemma HalfRemainder(h: nat, m: nat)
    requires m > 0
    ensures h % (2 * m) == 2 * (h / 2 % m) + h % 2
  {
    var a := h / 2;
    var q, r := a / m, a % m;
    assert h == 2 * (m * q + r) + h % 2;
    assert 2 * (m * q) == (2 * m) * q;
    RemainderUnique(h, 2 * m, q, 2 * r + h % 2);
  }

  lemma RemainderUnique(h: nat, size: nat, q: nat, r: nat)
    requires size > 0 && r < size && h == size * q + r
    ensures h % size == r
  {
    var d := h / size - q;
    assert size * d == r - h % size;
    Multiples(size, d);
  }

  lemma Multiples(size: nat, d: int)
    requires size > 0
    ensures d > 0 ==> size * d >= size
    ensures d < 0 ==> size * d <= 0 - size
  {
  }

  lemma {:induction false} PowersApart(a: nat, b: nat)
    requires IsPowerOfTwo(a) && IsPowerOfTwo(b) && a <= b < 2 * a
    ensures a == b
    decreases a
  {
    if a > 1 {
      PowersApart(a / 2, b / 2);
    }
  }

  lemma NextPowerExact(n: nat, i: nat)
    requires IsPowerOfTwo(i) && n <= i && (i == 4 || i < 2 * n)
    ensures n >= 4 && IsPowerOfTwo(n) ==> i == n
  {
    if n >= INITIAL_SIZE && IsPowerOfTwo(n) {
      PowersApart(n, i);
    }
  }

  /** _dictNextPower */
  method NextPower(size: nat) returns (i: nat)
    ensures size >= PORT_LONG_MAX ==> i == PORT_LONG_MAX
    ensures size < PORT_LONG_MAX ==>
              IsPowerOfTwo(i) && i >= 4 && i >= size && (i == 4 || i < 2 * size)
  {
    i := INITIAL_SIZE;
    if size >= PORT_LONG_MAX {
      return PORT_LONG_MAX;
    }
    assert IsPowerOfTwo(2);
    while i < size
      invariant IsPowerOfTwo(i) && i >= INITIAL_SIZE && (i == INITIAL_SIZE || i < 2 * size)
      decreases size - i
    {
      i := i * 2;
    }
  }

  // ---------- Entries and buckets ----------

  class Entry<K, V> {
    const key: K
    var val: V
    var next: Entry?<K, V>

    constructor (key: K, val: V, next: Entry?<K, V>)
      ensures this.key == key && this.val == val && this.next == next
    {
      this.key, this.val, this.next := key, val, next;
    }
  }

  ghost function Successor<K, V>(c: seq<Entry<K, V>>, j: nat): Entry?<K, V> {
    if j + 1 < |c| then c[j + 1] else null
  }

  /** The entries of a list that starts at head, in order, none twice. */
  ghost predicate IsChain<K, V>(head: Entry?<K, V>, c: seq<Entry<K, V>>)
    reads c`next
  {
    && head == (if c == [] then null else c[0])
    && (forall j :: 0 <= j < |c| ==> c[j].next == Successor(c, j))
    && forall j, l :: 0 <= j < l < |c| ==> c[j] != c[l]
  }

  ghost function Members<K, V>(c: seq<Entry<K, V>>): (r: set<Entry<K, V>>)
    ensures forall e :: e in r ==> e in c
    ensures forall e :: e in c ==> e in r
  {
    if c == [] then {} else {c[0]} + Members(c[1..])
  }

  lemma ChainTail<K, V>(head: Entry<K, V>, c: seq<Entry<K, V>>)
    requires IsChain(head, c)
    ensures c != [] && c[0] == head && IsChain(head.next, c[1..]) && head !in c[1..]
  {
    var t := c[1..];
    assert c[0].next == Successor(c, 0);
    forall j | 0 <= j < |t|
      ensures t[j].next == Successor(t, j)
    {
      assert c[j + 1].next == Successor(c, j + 1);
    }
  }

  /** While a bucket c is being moved: `rest` is still to come, `done` has moved. */
  ghost predicate Pending<K, V>(rest: seq<Entry<K, V>>, done: set<Entry<K, V>>,
                                c: seq<Entry<K, V>>, moved: set<Entry<K, V>>, all: set<Entry<K, V>>) {
    && Members(rest) <= Members(c) && Members(rest) !! done && Members(rest) <= all
    && done + Members(rest) == moved + Members(c)
  }

  lemma NextPending<K, V>(rest: seq<Entry<K, V>>, done: set<Entry<K, V>>,
                          c: seq<Entry<K, V>>, moved: set<Entry<K, V>>, all: set<Entry<K, V>>)
    requires Pending(rest, done, c, moved, all) && rest != [] && rest[0] !in rest[1..]
    ensures rest[0] !in done && rest[0] in Members(c)
    ensures Pending(rest[1..], done + {rest[0]}, c, moved, all)
    ensures |all - (done + {rest[0]})| == |all - done| - 1
  {
    var he := rest[0];
    assert Members(rest) == {he} + Members(rest[1..]);
    assert he in Members(rest);
    assert all - (done + {he}) == (all - done) - {he} && he in all - done;
  }

  lemma AllPending<K, V>(c: seq<Entry<K, V>>, moved: set<Entry<K, V>>, all: set<Entry<K, V>>)
    requires Members(c) <= all && Members(c) !! moved
    ensures Pending(c, moved, c, moved, all)
  {
  }

  lemma NonePending<K, V>(done: set<Entry<K, V>>, c: seq<Entry<K, V>>, moved: set<Entry<K, V>>, all: set<Entry<K, V>>)
    requires Pending([], done, c, moved, all)
    ensures done == moved + Members(c)
  {
  }

  lemma ChainEnd<K, V>(c: seq<Entry<K, V>>)
    requires IsChain(null, c)
    ensures c == []
  {
  }

  lemma ChainCons<K, V>(head: Entry<K, V>, c: seq<Entry<K, V>>)
    requires IsChain(head.next, c) && head !in c
    ensures IsChain(head, [head] + c)
  {
    var t := [head] + c;
    forall j | 0 <= j < |t|
      ensures t[j].next == Successor(t, j)
    {
      if j > 0 {
        assert c[j - 1].next == Successor(c, j - 1);
      }
    }
  }

  /** A table of chains: entry e is in the bucket of its hash value. */
  ghost predicate IsTable<K, V>(heads: seq<Entry?<K, V>>, chains: seq<seq<Entry<K, V>>>,
                                entries: set<Entry<K, V>>, hash: K -> nat)
    reads entries`next
  {
    && |heads| == |chains| && Placed(chains, entries, hash)
    && forall i :: 0 <= i < |chains| ==> Listed(chains[i], entries) && IsChain(heads[i], chains[i])
  }

  ghost predicate Placed<K, V>(chains: seq<seq<Entry<K, V>>>, entries: set<Entry<K, V>>, hash: K -> nat) {
    && |chains| > 0
    && (forall i :: 0 <= i < |chains| ==> Listed(chains[i], entries) && InSlot(chains[i], i, |chains|, hash))
    && forall e :: e in entries ==> e in chains[Slot(hash(e.key), |chains|)]
  }

  ghost predicate Listed<K, V>(c: seq<Entry<K, V>>, entries: set<Entry<K, V>>) {
    forall j :: 0 <= j < |c| ==> c[j] in entries
  }

  ghost predicate InSlot<K, V>(c: seq<Entry<K, V>>, i: nat, size: nat, hash: K -> nat)
    requires size > 0
  {
    forall j :: 0 <= j < |c| ==> Slot(hash(c[j].key), size) == i
  }

  /** Putting one more entry in front of its bucket. */
  lemma PushEntry<K, V>(heads: seq<Entry?<K, V>>, chains: seq<seq<Entry<K, V>>>,
                        entries: set<Entry<K, V>>, hash: K -> nat, e: Entry<K, V>, i: nat)
    requires IsTable(heads, chains, entries, hash)
    requires e !in entries && i == Slot(hash(e.key), |chains|) && e.next == heads[i]
    ensures IsTable(heads[i := e], chains[i := [e] + chains[i]], entries + {e}, hash)
  {
    assert IsChain(heads[i], chains[i]) && Listed(chains[i], entries);
    ChainCons(e, chains[i]);
    var more, all := chains[i := [e] + chains[i]], entries + {e};
    forall k | 0 <= k < |more|
      ensures Listed(more[k], all) && InSlot(more[k], k, |more|, hash)
    {
      assert Listed(chains[k], entries) && InSlot(chains[k], k, |chains|, hash);
    }
    forall x | x in all
      ensures x in more[Slot(hash(x.key), |more|)]
    {
      assert x == e ==> ([e] + chains[i])[0] == e;
      if x != e {
        var k := Slot(hash(x.key), |chains|);
        assert x in chains[k];
        assert k == i ==> x in [e] + chains[i];
      }
    }
  }

  /** The entries of the buckets before bucket i. */
  ghost function Below<K, V>(entries: set<Entry<K, V>>, hash: K -> nat, size: nat, i: nat): set<Entry<K, V>> {
    set e | e in entries && size > 0 && Slot(hash(e.key), size) < i
  }

  /** Bucket i holds exactly the entries that its index distinguishes. */
  lemma BelowStep<K, V>(chains: seq<seq<Entry<K, V>>>, entries: set<Entry<K, V>>, hash: K -> nat, i: nat)
    requires Placed(chains, entries, hash) && i < |chains|
    ensures var moved := Below(entries, hash, |chains|, i);
            && Members(chains[i]) <= entries && Members(chains[i]) !! moved
            && moved + Members(chains[i]) == Below(entries, hash, |chains|, i + 1)
            && entries - moved - Members(chains[i]) == entries - Below(entries, hash, |chains|, i + 1)
  {
    var c := chains[i];
    assert Listed(c, entries) && InSlot(c, i, |chains|, hash);
    forall e | e in Members(c)
      ensures e in entries && Slot(hash(e.key), |chains|) == i
    {
    }
  }

  /** The chains from bucket i on are intact, and all their entries are in `rest`. */
  ghost predicate ChainsFrom<K, V>(heads: seq<Entry?<K, V>>, chains: seq<seq<Entry<K, V>>>, i: nat,
                                   rest: set<Entry<K, V>>)
    reads rest`next
  {
    && i <= |heads| == |chains|
    && forall b :: i <= b < |chains| ==> Listed(chains[b], rest) && IsChain(heads[b], chains[b])
  }

  /** Bucket i shares no entry with the buckets behind it. */
  lemma NextChains<K, V>(heads: seq<Entry?<K, V>>, chains: seq<seq<Entry<K, V>>>,
                         entries: set<Entry<K, V>>, hash: K -> nat, i: nat, rest: set<Entry<K, V>>)
    requires Placed(chains, entries, hash) && i < |chains| && ChainsFrom(heads, chains, i, rest)
    ensures IsChain(heads[i], chains[i])
    ensures ChainsFrom(heads, chains, i + 1, rest - Members(chains[i]))
  {
    forall b | i < b < |chains|
      ensures Listed(chains[b], rest - Members(chains[i])) && IsChain(heads[b], chains[b])
    {
      assert Listed(chains[b], rest) && IsChain(heads[b], chains[b]);
      assert InSlot(chains[i], i, |chains|, hash) && InSlot(chains[b], b, |chains|, hash);
    }
  }

  lemma TableChains<K, V>(heads: seq<Entry?<K, V>>, chains: seq<seq<Entry<K, V>>>,
                          entries: set<Entry<K, V>>, hash: K -> nat)
    requires IsTable(heads, chains, entries, hash)
    ensures |heads| == |chains| && Placed(chains, entries, hash)
    ensures ChainsFrom(heads, chains, 0, entries)
  {
  }

  lemma NothingLeft<K, V>(entries: set<Entry<K, V>>, hash: K -> nat, size: nat, i: nat)
    requires i <= size && (size == 0 ==> entries == {})
    ensures |entries - Below(entries, hash, size, i)| == 0 ==> Below(entries, hash, size, i) == entries
    ensures i == size ==> |entries - Below(entries, hash, size, i)| == 0
  {
    var moved := Below(entries, hash, size, i);
    assert moved <= entries;
    assert i == size ==> moved == entries && entries - moved == {};
    assert |entries - moved| == 0 ==> entries - moved == {};
  }

  lemma NothingBelow<K, V>(entries: set<Entry<K, V>>, hash: K -> nat, size: nat)
    ensures Below(entries, hash, size, 0) == {} && entries - Below(entries, hash, size, 0) == entries
  {
  }

  lemma EmptyTable<K, V>(heads: seq<Entry?<K, V>>, chains: seq<seq<Entry<K, V>>>, hash: K -> nat)
    requires |heads| == |chains| > 0
    requires forall i :: 0 <= i < |heads| ==> heads[i] == null && chains[i] == []
    ensures IsTable(heads, chains, {}, hash)
  {
  }

  /** The entries hold exactly the pairs of the map, one entry for each key. */
  ghost predicate Represents<K, V>(entries: set<Entry<K, V>>, contents: map<K, V>)
    reads entries`val
  {
    && |entries| == |contents|
    && (forall e :: e in entries ==> e.key in contents && contents[e.key] == e.val)
    && (forall k :: k in contents ==> exists e :: e in entries && e.key == k)
    && forall e, x :: e in entries && x in entries && e.key == x.key ==> e == x
  }

  lemma AddPair<K, V>(entries: set<Entry<K, V>>, contents: map<K, V>, e: Entry<K, V>)
    requires Represents(entries, contents) && e !in entries && e.key !in contents
    ensures Represents(entries + {e}, contents[e.key := e.val])
  {
    var all, more := entries + {e}, contents[e.key := e.val];
    forall k | k in more
      ensures exists x :: x in all && x.key == k
    {
      if k == e.key {
        assert e in all;
      } else {
        var x :| x in entries && x.key == k;
        assert x in all;
      }
    }
  }

  function Without<T>(c: seq<T>, j: nat): (r: seq<T>)
    requires j < |c|
    ensures |r| == |c| - 1
    ensures forall i :: 0 <= i < |r| ==> r[i] == if i < j then c[i] else c[i + 1]
  {
    c[..j] + c[j + 1..]
  }

  /** The links of a chain after entry j has been bypassed. */
  ghost predicate Bypassed<K, V>(head: Entry?<K, V>, c: seq<Entry<K, V>>, j: nat)
    requires j < |c|
    reads c`next
  {
    && (forall i :: 0 <= i < |c| && i != j - 1 ==> c[i].next == Successor(c, i))
    && (if j > 0 then head == c[0] && c[j - 1].next == Successor(c, j) else head == Successor(c, 0))
    && Distinct(c)
  }

  lemma DistinctWithout<T>(c: seq<T>, j: nat, i: nat, l: nat)
    requires j < |c| && i < l < |c| - 1 && Distinct(c)
    ensures Without(c, j)[i] != Without(c, j)[l]
  {
    var r := Without(c, j);
    hide Without;
    var a, b := if i < j then i else i + 1, if l < j then l else l + 1;
    assert r[i] == c[a] && r[l] == c[b] && a < b;
  }

  lemma LinkWithout<K, V>(head: Entry?<K, V>, c: seq<Entry<K, V>>, j: nat, i: nat)
    requires j < |c| && i < |c| - 1 && Bypassed(head, c, j)
    ensures Without(c, j)[i].next == Successor(Without(c, j), i)
  {
    hide Without, Distinct;
    var a := if i < j then i else i + 1;
    if a == j - 1 {
      assert c[a].next == Successor(c, j);
    } else {
      assert c[a].next == Successor(c, a);
    }
  }

  lemma ChainWithout<K, V>(head: Entry?<K, V>, c: seq<Entry<K, V>>, j: nat)
    requires j < |c| && Bypassed(head, c, j)
    ensures IsChain(head, Without(c, j))
  {
    var r := Without(c, j);
    assert head == if r == [] then null else r[0];
    hide Without, Distinct, Bypassed;
    forall i | 0 <= i < |r|
      ensures r[i].next == Successor(r, i)
    {
      LinkWithout(head, c, j, i);
    }
    forall i, l | 0 <= i < l < |r|
      ensures r[i] != r[l]
    {
      BypassedDistinct(head, c, j);
      DistinctWithout(c, j, i, l);
    }
  }

  lemma BypassedDistinct<K, V>(head: Entry?<K, V>, c: seq<Entry<K, V>>, j: nat)
    requires j < |c| && Bypassed(head, c, j)
    ensures Distinct(c)
  {
  }

  ghost predicate Distinct<T>(c: seq<T>) {
    forall i, l :: 0 <= i < l < |c| ==> c[i] != c[l]
  }

  lemma DistinctAppend<K, V>(a: seq<Entry<K, V>>, c: seq<Entry<K, V>>)
    requires Distinct(a) && Distinct(c) && Members(a) !! Members(c)
    ensures Distinct(a + c) && Members(a + c) == Members(a) + Members(c)
  {
    hide Members;
    forall i, l | 0 <= i < l < |a + c|
      ensures (a + c)[i] != (a + c)[l]
    {
      assert i < |a| <= l ==> a[i] in Members(a) && c[l - |a|] in Members(c);
    }
    forall e
      ensures e in Members(a + c) <==> e in Members(a) || e in Members(c)
    {
      assert e in a + c <==> e in a || e in c;
    }
  }

  lemma NextFreed<T>(freed: seq<T>, rest: seq<T>)
    requires rest != []
    ensures freed + [rest[0]] + rest[1..] == freed + rest
  {
  }

  /** Bucket i is freed behind the buckets before it. */
  lemma FreeBucket<K, V>(heads: seq<Entry?<K, V>>, chains: seq<seq<Entry<K, V>>>, entries: set<Entry<K, V>>,
                         hash: K -> nat, i: nat, freed: seq<Entry<K, V>>)
    requires IsTable(heads, chains, entries, hash) && i < |chains|
    requires Distinct(freed) && Members(freed) == Below(entries, hash, |chains|, i)
    ensures var c := chains[i];
            && IsChain(heads[i], c) && Members(c) <= entries && Members(c) !! Members(freed)
            && Below(entries, hash, |chains|, i + 1) == Members(freed) + Members(c)
            && Distinct(freed + c) && Members(freed + c) == Below(entries, hash, |chains|, i + 1)
  {
    hide Members, Below;
    assert IsChain(heads[i], chains[i]);
    BelowStep(chains, entries, hash, i);
    DistinctAppend(freed, chains[i]);
  }

  lemma BucketWithout<K, V>(c: seq<Entry<K, V>>, j: nat, entries: set<Entry<K, V>>, h: nat, size: nat, hash: K -> nat)
    requires j < |c| && Distinct(c) && size > 0
    requires Listed(c, entries) && InSlot(c, h, size, hash)
    ensures Listed(Without(c, j), entries - {c[j]}) && InSlot(Without(c, j), h, size, hash)
    ensures forall x :: x in c && x != c[j] ==> x in Without(c, j)
  {
    forall x | x in c && x != c[j]
      ensures x in Without(c, j)
    {
      var l :| 0 <= l < |c| && c[l] == x;
      assert Without(c, j)[if l < j then l else l - 1] == x;
    }
  }

  /** Without one entry, the other entries are still placed right. */
  lemma PlacedWithout<K, V>(chains: seq<seq<Entry<K, V>>>, entries: set<Entry<K, V>>, hash: K -> nat, h: nat, j: nat)
    requires Placed(chains, entries, hash) && h < |chains| && j < |chains[h]| && Distinct(chains[h])
    ensures Placed(chains[h := Without(chains[h], j)], entries - {chains[h][j]}, hash)
  {
    hide Distinct, Slot;
    var c, e := chains[h], chains[h][j];
    var rest, fewer := chains[h := Without(c, j)], entries - {e};
    assert Listed(c, entries) && InSlot(c, h, |chains|, hash);
    assert Slot(hash(e.key), |chains|) == h;
    BucketWithout(c, j, entries, h, |chains|, hash);
    forall i | 0 <= i < |rest|
      ensures Listed(rest[i], fewer) && InSlot(rest[i], i, |rest|, hash)
    {
      assert Listed(chains[i], entries) && InSlot(chains[i], i, |chains|, hash);
    }
    forall x | x in fewer
      ensures x in rest[Slot(hash(x.key), |rest|)]
    {
      assert x in chains[Slot(hash(x.key), |chains|)];
    }
  }

  /** All chains but that of bucket h are intact, and their entries are in `rest`. */
  ghost predicate OtherChains<K, V>(heads: seq<Entry?<K, V>>, chains: seq<seq<Entry<K, V>>>, h: nat,
                                    rest: set<Entry<K, V>>)
    reads rest`next
  {
    && h < |heads| == |chains|
    && forall i :: 0 <= i < |chains| && i != h ==> Listed(chains[i], rest) && IsChain(heads[i], chains[i])
  }

  lemma SplitTable<K, V>(heads: seq<Entry?<K, V>>, chains: seq<seq<Entry<K, V>>>,
                         entries: set<Entry<K, V>>, hash: K -> nat, h: nat)
    requires IsTable(heads, chains, entries, hash) && h < |chains|
    ensures Placed(chains, entries, hash) && IsChain(heads[h], chains[h]) && Distinct(chains[h])
    ensures OtherChains(heads, chains, h, entries - Members(chains[h])) && Members(chains[h]) <= entries
  {
    var c, rest := chains[h], entries - Members(chains[h]);
    assert Listed(c, entries) && InSlot(c, h, |chains|, hash);
    forall i | 0 <= i < |chains| && i != h
      ensures Listed(chains[i], rest)
    {
      assert Listed(chains[i], entries) && InSlot(chains[i], i, |chains|, hash);
    }
  }

  lemma JoinTable<K, V>(heads: seq<Entry?<K, V>>, head: Entry?<K, V>,
                        chains: seq<seq<Entry<K, V>>>, c: seq<Entry<K, V>>,
                        entries: set<Entry<K, V>>, hash: K -> nat, h: nat, rest: set<Entry<K, V>>)
    requires OtherChains(heads, chains, h, rest) && IsChain(head, c)
    requires Placed(chains[h := c], entries, hash)
    ensures IsTable(heads[h := head], chains[h := c], entries, hash)
  {
    var all := chains[h := c];
    assert forall i :: 0 <= i < |all| ==> Listed(all[i], entries);
  }

  lemma RemovePair<K, V>(entries: set<Entry<K, V>>, contents: map<K, V>, e: Entry<K, V>)
    requires Represents(entries, contents) && e in entries
    ensures Represents(entries - {e}, contents - {e.key})
    ensures |entries - {e}| == |entries| - 1
  {
    var fewer, less := entries - {e}, contents - {e.key};
    assert less.Keys == contents.Keys - {e.key};
    assert |less.Keys| == |less| && |contents.Keys| == |contents|;
    forall k | k in less
      ensures exists x :: x in fewer && x.key == k
    {
      var x :| x in entries && x.key == k;
      assert x in fewer;
    }
  }

  /** The same pairs, but for the value of one entry. */
  ghost predicate RepresentsBut<K, V>(entries: set<Entry<K, V>>, contents: map<K, V>, x: Entry<K, V>)
    reads (entries - {x})`val
  {
    && |entries| == |contents| && x in entries && x.key in contents
    && (forall e :: e in entries ==> e.key in contents && (e != x ==> contents[e.key] == e.val))
    && (forall k :: k in contents ==> exists e :: e in entries && e.key == k)
    && forall d, e :: d in entries && e in entries && d.key == e.key ==> d == e
  }

  lemma SetPair<K, V>(entries: set<Entry<K, V>>, contents: map<K, V>, x: Entry<K, V>, val: V)
    requires Represents(entries, contents) && x in entries
    ensures RepresentsBut(entries, contents[x.key := val], x)
  {
    assert contents[x.key := val].Keys == contents.Keys;
    assert |contents[x.key := val].Keys| == |contents[x.key := val]|;
  }

  lemma PairSet<K, V>(entries: set<Entry<K, V>>, contents: map<K, V>, x: Entry<K, V>)
    requires RepresentsBut(entries, contents, x) && contents[x.key] == x.val
    ensures Represents(entries, contents)
  {
  }

  class Dict<K(==), V> {
    /** type->hashFunction; keys are compared with ==, which it respects. */
    const hash: K -> nat
    var table: array<Entry?<K, V>>
    var size: nat
    var sizemask: nat
    var used: nat

    ghost var chains: seq<seq<Entry<K, V>>>
    ghost var entries: set<Entry<K, V>>
    ghost var contents: map<K, V>

    ghost predicate Valid()
      reads this, table, entries
    {
      && table.Length == size && sizemask == (if size == 0 then 0 else size - 1)
      && used == |entries| <= size
      && (size == 0 ==> entries == {} && chains == [])
      && (size > 0 ==> size >= INITIAL_SIZE && IsPowerOfTwo(size) && |chains| == size
                       && IsTable(table[..], chains, entries, hash))
      && Represents(entries, contents)
    }

    /** dictCreate */
    constructor (hash: K -> nat)
      ensures Valid() && fresh(table) && this.hash == hash
      ensures contents == map[] && entries == {} && size == 0
    {
      this.hash := hash;
      table := new Entry?<K, V>[0];
      size, sizemask, used := 0, 0, 0;
      chains, entries, contents := [], {}, map[];
    }

    /** One entry goes to the front of its new bucket. */
    method MoveEntry(he: Entry<K, V>, ntable: array<Entry?<K, V>>, nmask: nat, ghost rest: seq<Entry<K, V>>,
                     ghost nchains: seq<seq<Entry<K, V>>>, ghost moved: set<Entry<K, V>>)
      returns (nextHe: Entry?<K, V>, ghost nchains': seq<seq<Entry<K, V>>>)
      requires ntable.Length > 0 && IsPowerOfTwo(ntable.Length) && nmask == ntable.Length - 1
      requires |nchains| == ntable.Length && IsTable(ntable[..], nchains, moved, hash)
      requires he !in moved && IsChain(he, rest)
      modifies ntable, he`next
      ensures |nchains'| == ntable.Length && IsTable(ntable[..], nchains', moved + {he}, hash)
      ensures rest != [] && he == rest[0] && he !in rest[1..] && IsChain(nextHe, rest[1..])
    {
      hide BitAnd, IsPowerOfTwo, IsTable, IsChain, Slot;
      nextHe := he.next;
      ChainTail(he, rest);
      MaskIsRemainder(hash(he.key), ntable.Length);
      var h := BitAnd(hash(he.key), nmask);
      he.next := ntable[h];
      ghost var heads := ntable[..];
      PushEntry(heads, nchains, moved, hash, he, h);
      ntable[h] := he;
      assert ntable[..] == heads[h := he];
      nchains' := nchains[h := [he] + nchains[h]];
    }

    /** The inner loop of dictExpand: moves the entries of one old bucket. */
    method MoveBucket(first: Entry?<K, V>, ghost c: seq<Entry<K, V>>, ntable: array<Entry?<K, V>>, nmask: nat,
                      ghost nchains: seq<seq<Entry<K, V>>>, ghost moved: set<Entry<K, V>>,
                      ghost all: set<Entry<K, V>>)
      returns (ghost nchains': seq<seq<Entry<K, V>>>)
      requires ntable.Length > 0 && IsPowerOfTwo(ntable.Length) && nmask == ntable.Length - 1
      requires |nchains| == ntable.Length && IsTable(ntable[..], nchains, moved, hash)
      requires IsChain(first, c) && Members(c) <= all && Members(c) !! moved
      requires used == |all - moved|
      modifies `used, ntable, Members(c)`next
      ensures |nchains'| == ntable.Length && IsTable(ntable[..], nchains', moved + Members(c), hash)
      ensures used == |all - (moved + Members(c))|
    {
      hide IsTable, IsPowerOfTwo, IsChain, Members, Pending;
      nchains' := nchains;
      var he := first;
      ghost var rest, done := c, moved;
      assert Pending(rest, done, c, moved, all) by { AllPending(c, moved, all); }
      while he != null
        invariant IsChain(he, rest) && Pending(rest, done, c, moved, all)
        invariant |nchains'| == ntable.Length && IsTable(ntable[..], nchains', done, hash)
        invariant used == |all - done|
        decreases |rest|
      {
        ChainTail(he, rest);
        NextPending(rest, done, c, moved, all);
        var nextHe;
        nextHe, nchains' := MoveEntry(he, ntable, nmask, rest, nchains', done);
        rest, done := rest[1..], done + {rest[0]};
        used := used - 1;
        he := nextHe;
      }
      ChainEnd(rest);
      NonePending(done, c, moved, all);
    }

    /** The state of the outer loop of dictExpand before bucket i: the entries of
        the buckets before it have moved, the other buckets are intact. */
    ghost predicate Moving(i: nat, ntable: seq<Entry?<K, V>>, nchains: seq<seq<Entry<K, V>>>)
      reads this, table, entries
    {
      && table.Length == size == |chains| && i <= size
      && (size > 0 ==> Placed(chains, entries, hash))
      && |nchains| == |ntable| && IsTable(ntable, nchains, Below(entries, hash, size, i), hash)
      && ChainsFrom(table[..], chains, i, entries - Below(entries, hash, size, i))
      && used == |entries - Below(entries, hash, size, i)|
    }

    /** The body of that loop. */
    method MoveOne(i: nat, ntable: array<Entry?<K, V>>, ghost nchains: seq<seq<Entry<K, V>>>)
      returns (ghost nchains': seq<seq<Entry<K, V>>>)
      requires ntable.Length > 0 && IsPowerOfTwo(ntable.Length) && ntable != table && i < size
      requires Moving(i, ntable[..], nchains)
      modifies `used, ntable, entries`next
      ensures Moving(i + 1, ntable[..], nchains')
    {
      hide IsPowerOfTwo, IsTable, IsChain, Members, Slot, Below, Placed, ChainsFrom;
      ghost var moved := Below(entries, hash, size, i);
      BelowStep(chains, entries, hash, i);
      NextChains(table[..], chains, entries, hash, i, entries - moved);
      nchains' := MoveBucket(table[i], chains[i], ntable, ntable.Length - 1, nchains, moved, entries);
    }

    /** The outer loop of dictExpand, which stops early when every entry has
        moved. The assertion is the one of the C code. */
    method MoveAll(ntable: array<Entry?<K, V>>, ghost nchains0: seq<seq<Entry<K, V>>>)
      returns (ghost nchains: seq<seq<Entry<K, V>>>)
      requires Valid() && ntable != table
      requires ntable.Length > 0 && IsPowerOfTwo(ntable.Length)
      requires |nchains0| == ntable.Length && IsTable(ntable[..], nchains0, {}, hash)
      modifies `used, ntable, entries`next
      ensures used == 0
      ensures |nchains| == ntable.Length && IsTable(ntable[..], nchains, entries, hash)
    {
      hide IsPowerOfTwo, Represents, IsTable, IsChain, Members, Slot, Below, Placed, ChainsFrom;
      nchains := nchains0;
      StartMoving(ntable[..], nchains);
      var i := 0;
      while i < size && used > 0
        invariant i <= size && Moving(i, ntable[..], nchains)
      {
        nchains := MoveOne(i, ntable, nchains);
        i := i + 1;
      }
      NothingLeft(entries, hash, size, i);
      assert used == 0;
    }

    lemma StartMoving(ntable: seq<Entry?<K, V>>, nchains: seq<seq<Entry<K, V>>>)
      requires Valid() && |nchains| == |ntable| && IsTable(ntable, nchains, {}, hash)
      ensures Moving(0, ntable, nchains)
    {
      NothingBelow(entries, hash, size);
      if size > 0 {
        TableChains(table[..], chains, entries, hash);
      }
    }

    /** dictExpand: a table of the next power of two, with the same entries. */
    method Expand(n: nat) returns (ok: bool)
      requires Valid() && n < PORT_LONG_MAX
      modifies this, entries`next
      ensures Valid() && ok == (old(used) <= n)
      ensures entries == old(entries) && contents == old(contents)
      ensures ok ==> fresh(table) && size >= n && (size == 4 || size < 2 * n)
      ensures ok && n >= 4 && IsPowerOfTwo(n) ==> size == n
      ensures !ok ==> unchanged(this) && forall e :: e in entries ==> e.next == old(e.next)
    {
      hide IsPowerOfTwo, IsTable, Moving, Slot, Represents, IsChain;
      var realsize := NextPower(n);
      NextPowerExact(n, realsize);
      if used > n {
        return false;
      }
      var count := used;
      var ntable := new Entry?<K, V>[realsize](_ => null);
      ghost var nchains := seq<seq<Entry<K, V>>>(realsize, _ => []);
      EmptyTable(ntable[..], nchains, hash);
      nchains := MoveAll(ntable, nchains);
      table := ntable;
      size, sizemask, used := realsize, realsize - 1, count;
      chains := nchains;
      ok := true;
    }

    /** _dictExpandIfNeeded */
    method ExpandIfNeeded() returns (ok: bool)
      requires Valid() && size <= SIZE_LIMIT
      modifies this, entries`next
      ensures Valid() && ok && used < size <= 2 * SIZE_LIMIT && used == old(used)
      ensures size == if old(size) == 0 then 4 else if used == old(size) then 2 * used else old(size)
      ensures size == old(size) ==> table == old(table)
      ensures entries == old(entries) && contents == old(contents)
      ensures table == old(table) || fresh(table)
    {
      hide IsTable, Represents;
      ok := true;
      if size == 0 {
        ok := Expand(INITIAL_SIZE);
      } else if used == size {
        ok := Expand(size * 2);
      }
    }

    /** The bucket that a key belongs to. */
    method BucketOf(key: K) returns (h: nat)
      requires Valid() && size > 0
      ensures h < size && h == Slot(hash(key), size)
      ensures IsChain(table[h], chains[h])
    {
      MaskIsRemainder(hash(key), size);
      h := BitAnd(hash(key), sizemask);
    }

    /** A key that is not in its bucket is not in the map. */
    lemma KeyAbsent(key: K)
      requires Valid()
      requires size > 0 ==> forall e :: e in chains[Slot(hash(key), size)] ==> e.key != key
      ensures key !in contents
    {
      forall e | e in entries
        ensures e.key != key
      {
        assert e in chains[Slot(hash(e.key), size)];
      }
    }

    /** A key that is in its bucket is in the map, with the value stored there. */
    lemma KeyPresent(h: nat, j: nat)
      requires Valid() && h < size && j < |chains[h]|
      ensures var e := chains[h][j]; e in entries && e.key in contents && contents[e.key] == e.val
    {
      assert Listed(chains[h], entries);
    }

    /** The loop that dictFind and _dictKeyIndex share: the first entry with the key. */
    static method Scan(head: Entry?<K, V>, key: K, ghost c: seq<Entry<K, V>>)
      returns (he: Entry?<K, V>, ghost j: nat)
      requires IsChain(head, c)
      ensures j <= |c| && forall l :: 0 <= l < j ==> c[l].key != key
      ensures if he == null then j == |c| else j < |c| && he == c[j] && he.key == key
    {
      he, j := head, 0;
      while he != null
        invariant j <= |c| && he == (if j < |c| then c[j] else null)
        invariant forall l :: 0 <= l < j ==> c[l].key != key
        decreases |c| - j
      {
        if he.key == key {
          return;
        }
        assert c[j].next == Successor(c, j);
        he, j := he.next, j + 1;
      }
    }

    /** dictFind */
    method Find(key: K) returns (he: Entry?<K, V>)
      requires Valid()
      ensures (he != null) == (key in contents)
      ensures he != null ==> he in entries && he.key == key && he.val == contents[key]
    {
      hide IsTable, Represents, IsPowerOfTwo, IsChain, Slot;
      if size == 0 {
        KeyAbsent(key);
        return null;
      }
      var h := BucketOf(key);
      ghost var j;
      he, j := Scan(table[h], key, chains[h]);
      if he == null {
        KeyAbsent(key);
      } else {
        KeyPresent(h, j);
      }
    }

    /** _dictKeyIndex: the bucket for a new key, or -1 if the key is there. */
    method KeyIndex(key: K) returns (index: int)
      requires Valid() && size <= SIZE_LIMIT
      modifies this, entries`next
      ensures Valid() && used < size <= 2 * SIZE_LIMIT && used == old(used)
      ensures size == if old(size) == 0 then 4 else if used == old(size) then 2 * used else old(size)
      ensures size == old(size) ==> table == old(table)
      ensures entries == old(entries) && contents == old(contents)
      ensures table == old(table) || fresh(table)
      ensures if key in contents then index == -1 else index == Slot(hash(key), size)
    {
      hide IsTable, Represents, IsPowerOfTwo, IsChain, Slot;
      var ok := ExpandIfNeeded();
      if !ok {
        return -1;
      }
      var h := BucketOf(key);
      var he;
      ghost var j;
      he, j := Scan(table[h], key, chains[h]);
      if he != null {
        KeyPresent(h, j);
        return -1;
      }
      KeyAbsent(key);
      index := h;
    }

    /** The second half of dictAdd: a new entry in front of its bucket. */
    method Insert(index: nat, key: K, val: V)
      requires Valid() && key !in contents && used < size && index == Slot(hash(key), size)
      modifies this, table
      ensures Valid() && used == old(used) + 1 && size == old(size) && table == old(table)
      ensures contents == old(contents)[key := val] && fresh(entries - old(entries))
    {
      hide IsPowerOfTwo, IsTable, Represents, Slot;
      var entry := new Entry(key, val, table[index]);
      ghost var heads := table[..];
      PushEntry(heads, chains, entries, hash, entry, index);
      AddPair(entries, contents, entry);
      chains := chains[index := [entry] + chains[index]];
      entries, contents := entries + {entry}, contents[key := val];
      table[index] := entry;
      assert table[..] == heads[index := entry];
      used := used + 1;
    }

    /** dictAdd */
    method Add(key: K, val: V) returns (ok: bool)
      requires Valid() && size <= SIZE_LIMIT
      modifies this, table, entries`next
      ensures Valid() && ok == (key !in old(contents))
      ensures used == old(used) + if key in old(contents) then 0 else 1
      ensures size == if old(size) == 0 then 4 else if old(used) == old(size) then 2 * old(size) else old(size)
      ensures contents == if ok then old(contents)[key := val] else old(contents)
      ensures fresh(entries - old(entries)) && (table == old(table) || fresh(table))
    {
      hide Valid, IsTable, Represents;
      var index := KeyIndex(key);
      if index == -1 {
        return false;
      }
      Insert(index, key, val);
      ok := true;
    }

    /** dictReplace: 1 for a new key; otherwise the value is changed in place, and
        the entry cannot be missing. */
    method Replace(key: K, val: V) returns (added: bool)
      requires Valid() && size <= SIZE_LIMIT
      modifies this, table, entries
      ensures Valid() && added == (key !in old(contents))
      ensures used == old(used) + if key in old(contents) then 0 else 1
      ensures size == if old(size) == 0 then 4 else if old(used) == old(size) then 2 * old(size) else old(size)
      ensures contents == old(contents)[key := val]
      ensures fresh(entries - old(entries)) && (table == old(table) || fresh(table))
    {
      hide IsTable, Represents, RepresentsBut, IsPowerOfTwo;
      added := Add(key, val);
      if added {
        return;
      }
      var entry := Find(key);
      assert entry != null;
      SetPair(entries, contents, entry, val);
      entry.val := val;
      contents := contents[key := val];
      PairSet(entries, contents, entry);
    }

    /** The assignment that takes entry j of a bucket out of its list. */
    method Bypass(h: nat, prevde: Entry?<K, V>, de: Entry<K, V>, ghost c: seq<Entry<K, V>>, ghost j: nat)
      requires h < table.Length && IsChain(table[h], c) && j < |c| && de == c[j]
      requires prevde == if j == 0 then null else c[j - 1]
      modifies table, (if prevde != null then {prevde} else {})`next
      ensures table[..] == old(table[..])[h := table[h]] && IsChain(table[h], Without(c, j))
    {
      assert c[j].next == Successor(c, j);
      if prevde != null {
        prevde.next := de.next;
      } else {
        table[h] := de.next;
      }
      ChainWithout(table[h], c, j);
    }

    /** The table without entry j of bucket h. */
    method CutOut(h: nat, prevde: Entry?<K, V>, de: Entry<K, V>, ghost j: nat)
      requires h < |chains| && IsTable(table[..], chains, entries, hash)
      requires j < |chains[h]| && de == chains[h][j]
      requires prevde == if j == 0 then null else chains[h][j - 1]
      modifies table, (if prevde != null then {prevde} else {})`next
      ensures IsTable(table[..], chains[h := Without(chains[h], j)], entries - {de}, hash)
    {
      hide Slot, Placed, Members, IsTable, IsChain, OtherChains, Distinct, Without;
      ghost var c, heads := chains[h], table[..];
      SplitTable(heads, chains, entries, hash, h);
      assert prevde != null ==> prevde in Members(c);
      PlacedWithout(chains, entries, hash, h, j);
      Bypass(h, prevde, de, c, j);
      assert table[..] == heads[h := table[h]];
      JoinTable(heads, table[h], chains, Without(c, j), entries - {de}, hash, h, entries - Members(c));
    }

    /** Takes entry j of bucket h out of the table. */
    method Unlink(h: nat, prevde: Entry?<K, V>, de: Entry<K, V>, ghost j: nat)
      requires Valid() && h < size && j < |chains[h]| && de == chains[h][j]
      requires prevde == if j == 0 then null else chains[h][j - 1]
      modifies `used, `chains, `entries, `contents, table, (if prevde != null then {prevde} else {})`next
      ensures Valid()
      ensures chains == old(chains)[h := Without(old(chains[h]), j)]
      ensures entries == old(entries) - {de} && contents == old(contents) - {de.key}
    {
      hide Represents, IsPowerOfTwo, IsTable, Without;
      KeyPresent(h, j);
      RemovePair(entries, contents, de);
      CutOut(h, prevde, de, j);
      chains := chains[h := Without(chains[h], j)];
      entries, contents := entries - {de}, contents - {de.key};
      used := used - 1;
    }

    /** dictDelete; the ghost results say which entry has gone. */
    method Delete(key: K) returns (ok: bool, ghost h: nat, ghost j: nat)
      requires Valid()
      modifies `used, `chains, `entries, `contents, table, entries`next
      ensures Valid() && ok == (key in old(contents)) && contents == old(contents) - {key}
      ensures !ok ==> chains == old(chains) && entries == old(entries)
      ensures ok ==>
                && h < size && j < |old(chains)[h]|
                && var e := old(chains)[h][j];
                   && e.key == key && e in old(entries) && entries == old(entries) - {e}
                   && chains == old(chains)[h := Without(old(chains)[h], j)]
    {
      hide Represents, IsPowerOfTwo, IsTable, Slot, Without;
      h, j := 0, 0;
      if size == 0 {
        KeyAbsent(key);
        return false, h, j;
      }
      var hash := BucketOf(key);
      h := hash;
      ghost var c := chains[h];
      var de, prevde: Entry?<K, V> := table[hash], null;
      while de != null
        invariant j <= |c| && de == (if j < |c| then c[j] else null)
        invariant prevde == if j == 0 then null else c[j - 1]
        invariant forall l :: 0 <= l < j ==> c[l].key != key
        decreases |c| - j
      {
        if de.key == key {
          KeyPresent(h, j);
          if j > 0 {
            KeyPresent(h, j - 1);
          }
          Unlink(hash, prevde, de, j);
          return true, h, j;
        }
        assert c[j].next == Successor(c, j);
        prevde, de, j := de, de.next, j + 1;
      }
      KeyAbsent(key);
      ok := false;
    }

    /** The inner loop of _dictClear: the entries of one bucket are freed. */
    method ClearBucket(first: Entry?<K, V>, ghost c: seq<Entry<K, V>>, freed: seq<Entry<K, V>>,
                       ghost done: set<Entry<K, V>>, ghost after: set<Entry<K, V>>)
      returns (freed': seq<Entry<K, V>>)
      requires IsChain(first, c) && Members(c) <= entries && Members(c) !! done && after == done + Members(c)
      requires used == |entries - done|
      modifies `used
      ensures freed' == freed + c && used == |entries - after|
    {
      hide IsChain, Members, Pending;
      freed' := freed;
      var he := first;
      ghost var rest, gone := c, done;
      AllPending(c, done, entries);
      while he != null
        invariant IsChain(he, rest) && Pending(rest, gone, c, done, entries)
        invariant freed' + rest == freed + c && used == |entries - gone|
        decreases |rest|
      {
        ChainTail(he, rest);
        NextPending(rest, gone, c, done, entries);
        NextFreed(freed', rest);
        var nextHe := he.next;
        freed' := freed' + [he];
        rest, gone := rest[1..], gone + {rest[0]};
        used := used - 1;
        he := nextHe;
      }
      ChainEnd(rest);
      NonePending(gone, c, done, entries);
    }

    /** The state of the outer loop of _dictClear before bucket i. */
    ghost predicate Clearing(i: nat, freed: seq<Entry<K, V>>)
      reads this, table, entries
    {
      && table.Length == size && i <= size
      && (size > 0 ==> |chains| == size && IsTable(table[..], chains, entries, hash))
      && Distinct(freed) && Members(freed) == Below(entries, hash, size, i)
      && used == |entries - Below(entries, hash, size, i)|
    }

    /** The body of that loop. */
    method ClearOne(i: nat, freed: seq<Entry<K, V>>) returns (freed': seq<Entry<K, V>>)
      requires Clearing(i, freed) && i < size
      modifies `used
      ensures Clearing(i + 1, freed')
    {
      hide Clearing, IsTable, IsChain, Members, Below, Distinct;
      BucketToClear(i, freed);
      ghost var done, after := Below(entries, hash, size, i), Below(entries, hash, size, i + 1);
      freed' := ClearBucket(table[i], chains[i], freed, done, after);
      BucketCleared(i, freed');
    }

    lemma BucketToClear(i: nat, freed: seq<Entry<K, V>>)
      requires Clearing(i, freed) && i < size
      ensures table.Length == size == |chains| && IsTable(table[..], chains, entries, hash)
      ensures var c, done := chains[i], Below(entries, hash, size, i);
              && IsChain(table[i], c) && Members(c) <= entries && Members(c) !! done && used == |entries - done|
              && Below(entries, hash, size, i + 1) == done + Members(c)
              && Distinct(freed + c) && Members(freed + c) == Below(entries, hash, size, i + 1)
    {
      hide IsTable, IsChain, Members, Below, Distinct;
      FreeBucket(table[..], chains, entries, hash, i, freed);
    }

    lemma BucketCleared(i: nat, freed: seq<Entry<K, V>>)
      requires i < size == table.Length == |chains| && IsTable(table[..], chains, entries, hash)
      requires Distinct(freed) && Members(freed) == Below(entries, hash, size, i + 1)
      requires used == |entries - Below(entries, hash, size, i + 1)|
      ensures Clearing(i + 1, freed)
    {
      hide IsTable, Members, Below, Distinct;
    }

    lemma StartClearing()
      requires Valid()
      ensures Clearing(0, [])
    {
      NothingBelow(entries, hash, size);
    }

    /** Its outer loop. */
    method ClearAll() returns (freed: seq<Entry<K, V>>)
      requires Valid()
      modifies `used
      ensures Distinct(freed) && Members(freed) == entries
    {
      hide Represents, IsTable, Members, Below, Distinct;
      StartClearing();
      freed := [];
      var i := 0;
      while i < size && used > 0
        invariant Clearing(i, freed)
      {
        freed := ClearOne(i, freed);
        i := i + 1;
      }
      NothingLeft(entries, hash, size, i);
    }

    /** _dictClear: every entry is freed exactly once, although the scan stops as
        soon as the counter says that none is left, and the table is empty again. */
    method Clear() returns (freed: seq<Entry<K, V>>)
      requires Valid()
      modifies this
      ensures Valid() && contents == map[] && entries == {} && size == 0
      ensures Distinct(freed) && Members(freed) == old(entries)
    {
      hide IsTable, Members, Distinct;
      freed := ClearAll();
      table := new Entry?<K, V>[0];
      size, sizemask, used := 0, 0, 0;
      chains, entries, contents := [], {}, map[];
    }
  }
}
