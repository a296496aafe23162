/**
  LfuCache of cpp/lfu_cache.cc: a cache that evicts the key used least often, and among those the one used longest ago,
  with a list of keys per frequency and the lowest frequency at hand.

  The account it is proved against knows nothing of lists: an entry has a value, a count of its uses and the time of the
  last one.
*/
module LfuCaches {
  import opened Wrappers

  datatype Node<V> = Node(v: V, f: nat)

  datatype Entry<V> = Entry(v: V, f: nat, last: nat)

  /** The entry that has to go: least uses, and the oldest of those. */
  predicate IsVictim<K, V>(entries: map<K, Entry<V>>, victim: K) {
    victim in entries && forall k :: k in entries && k != victim ==>
      entries[victim].f < entries[k].f || (entries[victim].f == entries[k].f && entries[victim].last < entries[k].last)
  }

  lemma OneVictim<K, V>(entries: map<K, Entry<V>>, a: K, b: K)
    requires IsVictim(entries, a) && IsVictim(entries, b)
    ensures a == b
  {}

  // ---- The lists ------------------------------------------------------------------------------------------------

  /** Keys of one frequency, the one used last at the head. */
  ghost predicate ListOk<K, V>(list: seq<K>, entries: map<K, Entry<V>>, f: nat) {
    && list != []
    && (forall i :: 0 <= i < |list| ==> list[i] in entries && entries[list[i]].f == f)
    && (forall i, j :: 0 <= i < j < |list| ==> list[i] in entries && list[j] in entries && entries[list[j]].last < entries[list[i]].last)
  }

  function ListOf<K>(lists: map<nat, seq<K>>, f: nat): seq<K> { if f in lists then lists[f] else [] }

  ghost predicate Filed<K, V>(lists: map<nat, seq<K>>, entries: map<K, Entry<V>>) {
    && (forall f :: f in lists ==> 0 < f && ListOk(lists[f], entries, f))
    && (forall k :: k in entries ==> k in ListOf(lists, entries[k].f))
  }

  ghost predicate Before<K, V>(entries: map<K, Entry<V>>, now: nat) { forall k :: k in entries ==> entries[k].last < now }

  ghost predicate IsLowest<K>(lists: map<nat, seq<K>>, lowest: nat) {
    lists != map[] ==> lowest in lists && forall f :: f in lists ==> lowest <= f
  }

  function Dropped<K>(list: seq<K>, i: nat): seq<K>
    requires i < |list|
  {
    list[..i] + list[i + 1..]
  }

  /** The lists with `list` as that of `f`; an empty one is erased. */
  function Stored<K>(lists: map<nat, seq<K>>, f: nat, list: seq<K>): map<nat, seq<K>> {
    if list == [] then lists - {f} else lists[f := list]
  }

  lemma KeyInList<K, V>(lists: map<nat, seq<K>>, entries: map<K, Entry<V>>, f: nat, i: nat)
    requires Filed(lists, entries) && f in lists && i < |lists[f]|
    ensures lists[f][i] in entries && entries[lists[f][i]].f == f && 0 < f
    ensures forall j :: 0 <= j < |lists[f]| && j != i ==> lists[f][j] != lists[f][i]
  {
    assert ListOk(lists[f], entries, f);
  }

  /** A list stays in order when one of its keys leaves it, or changes otherwise. */
  lemma ListWithout<K, V>(list: seq<K>, entries: map<K, Entry<V>>, entries': map<K, Entry<V>>, f: nat, i: nat)
    requires ListOk(list, entries, f) && i < |list|
    requires forall k :: k in entries && k != list[i] ==> k in entries' && entries'[k] == entries[k]
    ensures Dropped(list, i) != [] ==> ListOk(Dropped(list, i), entries', f)
    ensures forall k :: k in list && k != list[i] ==> k in Dropped(list, i)
  {
    var less := Dropped(list, i);
    forall j | 0 <= j < |less| ensures less[j] == list[if j < i then j else j + 1] && less[j] != list[i] {}
    forall k | k in list && k != list[i] ensures k in less {
      var j :| 0 <= j < |list| && list[j] == k;
      assert less[if j < i then j else j - 1] == k;
    }
  }

  lemma OtherList<K, V>(list: seq<K>, entries: map<K, Entry<V>>, entries': map<K, Entry<V>>, f: nat, key: K)
    requires ListOk(list, entries, f) && key !in list
    requires forall k :: k in entries && k != key ==> k in entries' && entries'[k] == entries[k]
    ensures ListOk(list, entries', f)
  {
    assert forall i :: 0 <= i < |list| ==> list[i] in list;
  }

  lemma ListWith<K, V>(list: seq<K>, entries': map<K, Entry<V>>, f: nat, key: K, now: nat)
    requires list == [] || ListOk(list, entries', f)
    requires key in entries' && entries'[key].f == f && entries'[key].last == now
    requires forall k :: k in list ==> k in entries' && entries'[k].last < now
    ensures ListOk([key] + list, entries', f)
  {
    var more := [key] + list;
    forall i | 0 <= i < |more| ensures more[i] == if i == 0 then key else list[i - 1] {}
    assert forall i :: 0 <= i < |list| ==> list[i] in list;
  }

  /** A key that leaves the cache leaves its list. */
  lemma KeyGone<K, V>(lists: map<nat, seq<K>>, entries: map<K, Entry<V>>, f: nat, i: nat)
    requires Filed(lists, entries) && f in lists && i < |lists[f]|
    ensures Filed(Stored(lists, f, Dropped(lists[f], i)), entries - {lists[f][i]})
  {
    var key, less := lists[f][i], Dropped(lists[f], i);
    var lists', entries' := Stored(lists, f, less), entries - {key};
    KeyInList(lists, entries, f, i);
    ListWithout(lists[f], entries, entries', f, i);
    forall g | g in lists' ensures 0 < g && ListOk(lists'[g], entries', g) {
      if g != f {
        NotInOther(lists, entries, key, g);
        OtherList(lists[g], entries, entries', g, key);
      }
    }
    forall k | k in entries' ensures k in ListOf(lists', entries'[k].f) {
      assert k in ListOf(lists, entries[k].f);
    }
  }

  lemma NotInOther<K, V>(lists: map<nat, seq<K>>, entries: map<K, Entry<V>>, key: K, g: nat)
    requires Filed(lists, entries) && g in lists && (key in entries ==> entries[key].f != g)
    ensures key !in lists[g]
  {
    assert ListOk(lists[g], entries, g);
  }

  lemma FiledList<K, V>(lists: map<nat, seq<K>>, entries: map<K, Entry<V>>, g: nat)
    requires Filed(lists, entries) && g in lists
    ensures 0 < g && ListOk(lists[g], entries, g) && forall k :: k in lists[g] ==> k in entries
  {
    assert ListOk(lists[g], entries, g);
  }

  lemma FiledKey<K, V>(lists: map<nat, seq<K>>, entries: map<K, Entry<V>>, k: K)
    requires Filed(lists, entries) && k in entries
    ensures entries[k].f in lists && k in lists[entries[k].f]
  {
    assert k in ListOf(lists, entries[k].f);
  }

  lemma ListAfterKeyCame<K, V>(lists: map<nat, seq<K>>, entries: map<K, Entry<V>>, key: K, e: Entry<V>, g: nat)
    requires Filed(lists, entries) && key !in entries && 0 < e.f && Before(entries, e.last) && (g in lists || g == e.f)
    ensures 0 < g && ListOk(if g == e.f then [key] + ListOf(lists, g) else ListOf(lists, g), entries[key := e], g)
  {
    var entries' := entries[key := e];
    if g in lists {
      FiledList(lists, entries, g);
      OtherList(lists[g], entries, entries', g, key);
    }
    if g == e.f { ListWith(ListOf(lists, g), entries', g, key, e.last); }
  }

  /** A new key goes to the head of its list. */
  lemma KeyCome<K, V>(lists: map<nat, seq<K>>, entries: map<K, Entry<V>>, key: K, e: Entry<V>)
    requires Filed(lists, entries) && key !in entries && 0 < e.f && Before(entries, e.last)
    ensures Filed(lists[e.f := [key] + ListOf(lists, e.f)], entries[key := e])
  {
    hide ListOk;
    var lists', entries' := lists[e.f := [key] + ListOf(lists, e.f)], entries[key := e];
    forall g | g in lists' ensures 0 < g && ListOk(lists'[g], entries', g) {
      ListAfterKeyCame(lists, entries, key, e, g);
    }
    forall k | k in entries' ensures k in ListOf(lists', entries'[k].f) {
      if k != key { FiledKey(lists, entries, k); }
    }
  }

  /** Moving a key from one list to the next is its leaving and coming back. */
  lemma KeyMoved<K, V>(lists: map<nat, seq<K>>, entries: map<K, Entry<V>>, f: nat, i: nat, key: K, e: Entry<V>)
    requires Filed(lists, entries) && f in lists && i < |lists[f]| && key == lists[f][i] && e.f == f + 1 && Before(entries, e.last)
    ensures Filed(Stored(lists, f, Dropped(lists[f], i))[f + 1 := [key] + ListOf(lists, f + 1)], entries[key := e])
  {
    hide Filed, Before, ListOk, Stored, ListOf, Dropped;
    KeyGone(lists, entries, f, i);
    BeforeWithout(entries, key, e.last);
    var less := Stored(lists, f, Dropped(lists[f], i));
    OtherListStored(lists, f, Dropped(lists[f], i), f + 1);
    KeyCome(less, entries - {key}, key, e);
    Replaced(entries, key, e);
  }

  lemma Replaced<K, V>(entries: map<K, Entry<V>>, key: K, e: Entry<V>)
    ensures key !in entries - {key} && (entries - {key})[key := e] == entries[key := e]
  {}

  lemma OtherListStored<K>(lists: map<nat, seq<K>>, f: nat, list: seq<K>, g: nat)
    requires f != g
    ensures ListOf(Stored(lists, f, list), g) == ListOf(lists, g)
  {}

  lemma BeforeWithout<K, V>(entries: map<K, Entry<V>>, key: K, now: nat)
    requires Before(entries, now)
    ensures Before(entries - {key}, now)
  {}

  lemma LowestMoved<K>(lists: map<nat, seq<K>>, lowest: nat, f: nat, i: nat)
    requires IsLowest(lists, lowest) && f in lists && i < |lists[f]|
    ensures var less, key := Dropped(lists[f], i), lists[f][i];
      IsLowest(Stored(lists, f, less)[f + 1 := [key] + ListOf(lists, f + 1)], if less == [] && lowest == f then f + 1 else lowest)
  {}

  /** The last key of the lowest list is the one to go. */
  lemma LastOfLowest<K, V>(lists: map<nat, seq<K>>, entries: map<K, Entry<V>>, lowest: nat)
    requires Filed(lists, entries) && IsLowest(lists, lowest) && entries != map[]
    ensures lowest in lists && lists[lowest] != [] && IsVictim(entries, lists[lowest][|lists[lowest]| - 1])
  {
    var some :| some in entries;
    FiledKey(lists, entries, some);
    FiledList(lists, entries, lowest);
    var victim := lists[lowest][|lists[lowest]| - 1];
    forall k | k in entries && k != victim
      ensures entries[victim].f < entries[k].f || (entries[victim].f == entries[k].f && entries[victim].last < entries[k].last)
    {
      FiledKey(lists, entries, k);
      if entries[k].f == lowest { OlderThan(lists[lowest], entries, lowest, k); }
    }
  }

  lemma OlderThan<K, V>(list: seq<K>, entries: map<K, Entry<V>>, f: nat, k: K)
    requires ListOk(list, entries, f) && k in list && k != list[|list| - 1]
    ensures list[|list| - 1] in entries && k in entries && entries[list[|list| - 1]].last < entries[k].last
  {
    var j :| 0 <= j < |list| && list[j] == k;
  }

  /** The nodes are the entries without the times. */
  ghost predicate Tied<K, V>(nodes: map<K, Node<V>>, entries: map<K, Entry<V>>) {
    nodes.Keys == entries.Keys && forall k :: k in entries ==> nodes[k] == Node(entries[k].v, entries[k].f)
  }

  lemma TiedWith<K, V>(nodes: map<K, Node<V>>, entries: map<K, Entry<V>>, k: K, e: Entry<V>)
    requires Tied(nodes, entries)
    ensures Tied(nodes[k := Node(e.v, e.f)], entries[k := e])
    ensures k in nodes ==> |nodes[k := Node(e.v, e.f)]| == |nodes|
    ensures k !in nodes ==> |nodes[k := Node(e.v, e.f)]| == |nodes| + 1
  {
    var nodes' := nodes[k := Node(e.v, e.f)];
    assert nodes'.Keys == nodes.Keys + {k};
    assert |nodes'.Keys| == |nodes'| && |nodes.Keys| == |nodes|;
    if k in nodes { assert nodes'.Keys == nodes.Keys; }
  }

  lemma TiedWithout<K, V>(nodes: map<K, Node<V>>, entries: map<K, Entry<V>>, k: K)
    requires Tied(nodes, entries) && k in nodes
    ensures Tied(nodes - {k}, entries - {k}) && |nodes - {k}| == |nodes| - 1
  {
    assert (nodes - {k}).Keys == nodes.Keys - {k};
    assert |(nodes - {k}).Keys| == |nodes - {k}| && |nodes.Keys| == |nodes|;
  }

  lemma TiedNode<K, V>(nodes: map<K, Node<V>>, entries: map<K, Entry<V>>, k: K)
    requires Tied(nodes, entries)
    ensures k in nodes <==> k in entries
    ensures k in nodes ==> nodes[k] == Node(entries[k].v, entries[k].f)
  {}

  class LfuCache<K(==), V> {
    const capacity: nat
    var freq2Keys: map<nat, seq<K>>
    var key2Node: map<K, Node<V>>
    var lowestFreq: nat
    ghost var entries: map<K, Entry<V>>
    ghost var now: nat

    ghost predicate Valid()
      reads this
    {
      && 0 < capacity && |key2Node| <= capacity && Tied(key2Node, entries)
      && Filed(freq2Keys, entries) && Before(entries, now) && IsLowest(freq2Keys, lowestFreq)
    }

    constructor (capacity: nat)
      requires 0 < capacity
      ensures Valid() && entries == map[] && this.capacity == capacity
    {
      this.capacity := capacity;
      freq2Keys, key2Node, lowestFreq := map[], map[], 1;
      entries, now := map[], 0;
    }

    /** The key moves to the head of the next list; an emptied list goes, and with it the lowest frequency rises. */
    method IncrementAccess(k: K)
      requires Valid() && k in key2Node
      modifies this
      ensures Valid() && now == old(now) + 1
      ensures k in old(entries) && entries == old(entries)[k := Entry(old(entries)[k].v, old(entries)[k].f + 1, old(now))]
    {
      hide Filed, Before, IsLowest, Tied;
      var node := key2Node[k];
      TiedNode(key2Node, entries, k);
      FiledKey(freq2Keys, entries, k);
      var curKeyList := freq2Keys[node.f];
      var i: nat :| i < |curKeyList| && curKeyList[i] == k;
      ghost var e := Entry(node.v, node.f + 1, now);
      KeyMoved(freq2Keys, entries, node.f, i, k, e);
      LowestMoved(freq2Keys, lowestFreq, node.f, i);
      BeforeUsed(entries, k, e);
      TiedWith(key2Node, entries, k, e);
      var less := Dropped(curKeyList, i);
      freq2Keys := Stored(freq2Keys, node.f, less)[node.f + 1 := [k] + ListOf(freq2Keys, node.f + 1)];
      if less == [] && lowestFreq == node.f { lowestFreq := lowestFreq + 1; }
      key2Node := key2Node[k := Node(node.v, node.f + 1)];
      entries, now := entries[k := e], now + 1;
    }

    /** The value, after counting the use; none for a key that is not there. */
    method Get(k: K) returns (r: Option<V>)
      requires Valid()
      modifies this
      ensures Valid() && now == if k in old(entries) then old(now) + 1 else old(now)
      ensures k !in old(entries) ==> r == None && entries == old(entries)
      ensures k in old(entries) ==> r == Some(old(entries)[k].v)
      ensures k in old(entries) ==> entries == old(entries)[k := Entry(old(entries)[k].v, old(entries)[k].f + 1, old(now))]
    {
      hide Filed, Before, IsLowest, Tied;
      TiedNode(key2Node, entries, k);
      if k !in key2Node { return None; }
      IncrementAccess(k);
      TiedNode(key2Node, entries, k);
      r := Some(key2Node[k].v);
    }

    /** The last key of the lowest list goes; the lowest frequency is left to be set by the caller. */
    method Evict() returns (ghost victim: K)
      requires Valid() && |key2Node| == capacity
      modifies this`freq2Keys, this`key2Node, this`entries
      ensures IsVictim(old(entries), victim) && entries == old(entries) - {victim}
      ensures |key2Node| == capacity - 1 && Tied(key2Node, entries) && Filed(freq2Keys, entries) && Before(entries, now)
    {
      hide Filed, Before, IsLowest, Tied, IsVictim;
      NotEmpty(key2Node, entries);
      LastOfLowest(freq2Keys, entries, lowestFreq);
      var lowestKeyList := freq2Keys[lowestFreq];
      var last: nat := |lowestKeyList| - 1;
      var keyToEvict := lowestKeyList[last];
      victim := keyToEvict;
      KeyInList(freq2Keys, entries, lowestFreq, last);
      TiedNode(key2Node, entries, keyToEvict);
      KeyGone(freq2Keys, entries, lowestFreq, last);
      TiedWithout(key2Node, entries, keyToEvict);
      BeforeWithout(entries, keyToEvict, now);
      key2Node := key2Node - {keyToEvict};
      assert Dropped(lowestKeyList, last) == lowestKeyList[..last];
      freq2Keys := Stored(freq2Keys, lowestFreq, lowestKeyList[..last]);
      entries := entries - {keyToEvict};
    }

    /** Assigns through the value that get gave out. */
    method Overwrite(k: K, v: V)
      requires Valid() && k in entries
      modifies this`key2Node, this`entries
      ensures Valid() && entries == old(entries)[k := old(entries)[k].(v := v)]
    {
      hide Filed, Before, IsLowest, Tied;
      TiedNode(key2Node, entries, k);
      TiedWith(key2Node, entries, k, entries[k].(v := v));
      SameLists(freq2Keys, entries, k, v, now);
      key2Node := key2Node[k := Node(v, key2Node[k].f)];
      entries := entries[k := entries[k].(v := v)];
    }

    /** A new key starts with one use, which is then the lowest frequency. */
    method Insert(k: K, v: V)
      requires 0 < capacity && |key2Node| < capacity && k !in entries
      requires Tied(key2Node, entries) && Filed(freq2Keys, entries) && Before(entries, now)
      modifies this
      ensures Valid() && now == old(now) + 1 && entries == old(entries)[k := Entry(v, 1, old(now))]
    {
      hide Filed, Before, IsLowest, Tied;
      ghost var e := Entry(v, 1, now);
      TiedNode(key2Node, entries, k);
      KeyCome(freq2Keys, entries, k, e);
      TiedWith(key2Node, entries, k, e);
      BeforeUsed(entries, k, e);
      OneIsLowest(freq2Keys, entries, k);
      lowestFreq := 1;
      freq2Keys := freq2Keys[1 := [k] + ListOf(freq2Keys, 1)];
      key2Node := key2Node[k := Node(v, 1)];
      entries, now := entries[k := e], now + 1;
    }

    /** A key that is there gets the value and one more use; a new one comes in with one use, in place of the victim when
        the cache is full. */
    method Put(k: K, v: V)
      requires Valid()
      modifies this
      ensures Valid() && now == old(now) + 1
      ensures k in old(entries) ==> entries == old(entries)[k := Entry(v, old(entries)[k].f + 1, old(now))]
      ensures k !in old(entries) && |old(entries)| < capacity ==> entries == old(entries)[k := Entry(v, 1, old(now))]
      ensures k !in old(entries) && |old(entries)| == capacity ==>
        exists victim :: IsVictim(old(entries), victim) && entries == (old(entries) - {victim})[k := Entry(v, 1, old(now))]
    {
      hide Filed, Before, IsLowest, Tied, IsVictim;
      SameSize(key2Node, entries);
      var found := Get(k);
      SameSize(key2Node, entries);
      if found.Some? {
        Overwrite(k, v);
        return;
      }
      if |key2Node| == capacity {
        ghost var victim := Evict();
      }
      Insert(k, v);
    }
  }

  lemma SameSize<K, V>(nodes: map<K, Node<V>>, entries: map<K, Entry<V>>)
    requires Tied(nodes, entries)
    ensures |nodes| == |entries|
  {
    assert |nodes.Keys| == |nodes| && |entries.Keys| == |entries|;
  }

  lemma NotEmpty<K, V>(nodes: map<K, Node<V>>, entries: map<K, Entry<V>>)
    requires Tied(nodes, entries) && 0 < |nodes|
    ensures entries != map[]
  {
    assert |nodes.Keys| == |nodes|;
  }

  lemma OneIsLowest<K, V>(lists: map<nat, seq<K>>, entries: map<K, Entry<V>>, k: K)
    requires Filed(lists, entries)
    ensures IsLowest(lists[1 := [k] + ListOf(lists, 1)], 1)
  {}

  /** A value has no part in the lists. */
  lemma SameLists<K, V>(lists: map<nat, seq<K>>, entries: map<K, Entry<V>>, k: K, v: V, now: nat)
    requires Filed(lists, entries) && Before(entries, now) && k in entries
    ensures var entries' := entries[k := entries[k].(v := v)]; Filed(lists, entries') && Before(entries', now)
  {
    var entries' := entries[k := entries[k].(v := v)];
    forall f | f in lists ensures 0 < f && ListOk(lists[f], entries', f) { assert ListOk(lists[f], entries, f); }
    forall x | x in entries' ensures x in ListOf(lists, entries'[x].f) { assert x in ListOf(lists, entries[x].f); }
  }

  lemma BeforeUsed<K, V>(entries: map<K, Entry<V>>, k: K, e: Entry<V>)
    requires Before(entries, e.last)
    ensures Before(entries[k := e], e.last + 1)
  {}
}
