/**
  The least recently used cache: a dictionary of nodes that are also linked in a list, between two
  sentinels, most recently used first.
*/
module LruCache {
  import opened Wrappers
  import opened RecencyList

  class Node {
    var Value: int
    var Key: int
    var Prev: Node?
    var Next: Node?

    constructor (key: int, value: int)
      ensures Key == key && Value == value && Prev == null && Next == null
    {
      Key, Value, Prev, Next := key, value, null, null;
    }
  }

  ghost predicate AllDifferent(chain: seq<Node>) {
    forall i, j :: 0 <= i < j < |chain| ==> chain[i] != chain[j]
  }

  /** Prev and Next are mutually inverse along the chain. */
  ghost predicate Linked(chain: seq<Node>)
    reads chain
  {
    && (forall i :: 0 <= i < |chain| - 1 ==> chain[i].Next == chain[i + 1])
    && (forall i :: 0 < i < |chain| ==> chain[i].Prev == chain[i - 1])
  }

  ghost function Dropped(chain: seq<Node>, j: nat): seq<Node>
    requires j < |chain|
  {
    chain[..j] + chain[j + 1..]
  }

  class DoubleLinkedList {
    const header: Node
    const tail: Node
    /** The nodes from header to tail, both included. */
    ghost var chain: seq<Node>
    /** All nodes that were ever linked. */
    ghost var repr: set<Node>

    ghost predicate Valid()
      reads this, repr
    {
      && (forall i :: 0 <= i < |chain| ==> chain[i] in repr)
      && |chain| >= 2 && chain[0] == header && chain[|chain| - 1] == tail
      && AllDifferent(chain) && Linked(chain)
    }

    constructor ()
      ensures Valid() && Bare() && chain == [header, tail] && fresh(repr)
    {
      header := new Node(0, 0);
      tail := new Node(0, 0);
      chain := [header, tail];
      repr := {header, tail};
      new;
      header.Next := tail;
      tail.Prev := header;
    }

    method AddHeader(node: Node)
      requires Valid() && node !in chain
      modifies this, node`Next, node`Prev, repr`Next, repr`Prev
      ensures Valid() && chain == [header, node] + old(chain)[1..] && repr == old(repr) + {node}
    {
      assert header.Next == chain[1];
      node.Next := header.Next;
      node.Prev := header;
      header.Next.Prev := node;
      header.Next := node;
      chain, repr := [header, node] + chain[1..], repr + {node};
    }

    method RemoveNode(node: Node, ghost j: nat)
      requires Valid() && 0 < j < |chain| - 1 && chain[j] == node
      modifies this`chain, repr`Next, repr`Prev
      ensures Valid() && chain == Dropped(old(chain), j) && node.Prev == null && node.Next == null
    {
      assert chain[j].Next == chain[j + 1] && chain[j].Prev == chain[j - 1];
      node.Next.Prev := node.Prev;
      node.Prev.Next := node.Next;
      node.Prev, node.Next := null, null;
      chain := Dropped(chain, j);
    }

    method GetLastNode() returns (node: Node?)
      ensures node == tail.Prev
    {
      node := tail.Prev;
    }

    /** Nothing is linked, or the header was unlinked already. */
    ghost predicate Bare()
      reads this, repr
    {
      && {header, tail} <= repr && header.Prev == null
      && (tail.Prev == null || (tail.Prev == header && header.Next == tail))
    }

    /** Removing the header unlinks it and throws, and so does removing nothing. */
    method RemoveHeader(node: Node?)
      requires Bare() && node == tail.Prev
      modifies tail`Prev
      ensures Bare() && tail.Prev == null
    {
      if node != null {
        node.Next.Prev := node.Prev;
      }
    }

    /** RemoveNode followed by AddHeader, for the same node or for a new one. */
    method Replace(node: Node, ghost j: nat, next: Node)
      requires Valid() && 0 < j < |chain| - 1 && chain[j] == node && (next == node || next !in chain)
      modifies this, repr`Next, repr`Prev, next`Next, next`Prev
      ensures Valid() && chain == Replaced(old(chain), j, next) && repr == old(repr) + {next}
    {
      RemoveNode(node, j);
      AddHeader(next);
    }
  }

  // ---------------------------------------------------------------- entries and nodes

  /** One node is dropped, and one is added behind the sentinel. */
  ghost function Replaced(chain: seq<Node>, j: nat, next: Node): seq<Node>
    requires 0 < j < |chain|
  {
    [chain[0], next] + Dropped(chain, j)[1..]
  }

  /** The nodes between the sentinels carry the entries. */
  ghost predicate Shows(chain: seq<Node>, entries: seq<Entry>)
    reads chain`Key, chain`Value
  {
    && |chain| == |entries| + 2
    && forall i :: 0 <= i < |entries| ==> chain[i + 1].Key == entries[i].key && chain[i + 1].Value == entries[i].value
  }

  /** The dictionary holds exactly the nodes between the sentinels, under their keys. */
  ghost predicate Indexes(m: map<int, Node>, chain: seq<Node>, entries: seq<Entry>)
    requires |chain| == |entries| + 2
  {
    && |m| == |entries|
    && (forall key :: key in m ==> Has(entries, key))
    && (forall i :: 0 <= i < |entries| ==> entries[i].key in m && m[entries[i].key] == chain[i + 1])
  }

  /** The three parts of a cache agree. */
  ghost predicate Agree(m: map<int, Node>, chain: seq<Node>, entries: seq<Entry>)
    reads chain`Key, chain`Value
  {
    Shows(chain, entries) && Indexes(m, chain, entries) && KeysDistinct(entries)
  }

  ghost function ReplacedEntry(s: seq<Entry>, i: nat, e: Entry): seq<Entry>
    requires i < |s|
  {
    [e] + (s[..i] + s[i + 1..])
  }

  /** Where the entries behind the new one come from. */
  lemma ReplacedAt(chain: seq<Node>, s: seq<Entry>, i: nat, next: Node, e: Entry, k: nat) returns (k': nat)
    requires |chain| == |s| + 2 && i < |s| && 0 < k < |s|
    ensures k' < |s| && k' != i && ReplacedEntry(s, i, e)[k] == s[k']
    ensures Replaced(chain, i + 1, next)[k + 1] == chain[k' + 1]
  {
    k' := if k <= i then k - 1 else k;
  }

  lemma ReplacedFrom(s: seq<Entry>, i: nat, e: Entry, k': nat)
    requires i < |s| && k' < |s| && k' != i
    ensures Has(ReplacedEntry(s, i, e), s[k'].key)
  {
    assert ReplacedEntry(s, i, e)[if k' < i then k' + 1 else k'] == s[k'];
  }

  /** A hit: the entry of a key moves to the front, with its old node or with a new one. */
  lemma ReplacedKeeps(m: map<int, Node>, chain: seq<Node>, s: seq<Entry>, i: nat, next: Node, e: Entry)
    requires Shows(chain, s) && Indexes(m, chain, s) && KeysDistinct(s) && i < |s|
    requires e.key == s[i].key && next.Key == e.key && next.Value == e.value
    ensures Shows(Replaced(chain, i + 1, next), ReplacedEntry(s, i, e))
    ensures Indexes(m[e.key := next], Replaced(chain, i + 1, next), ReplacedEntry(s, i, e))
    ensures KeysDistinct(ReplacedEntry(s, i, e))
  {
    var s', chain', m' := ReplacedEntry(s, i, e), Replaced(chain, i + 1, next), m[e.key := next];
    forall k | 0 <= k < |s'|
      ensures s'[k].key in m' && m'[s'[k].key] == chain'[k + 1]
      ensures chain'[k + 1].Key == s'[k].key && chain'[k + 1].Value == s'[k].value {
      if k > 0 {
        var k' := ReplacedAt(chain, s, i, next, e, k);
      }
    }
    forall key | key in m' ensures Has(s', key) {
      var n :| 0 <= n < |s| && s[n].key == key;
      if n == i {
        assert s'[0].key == key;
      } else {
        ReplacedFrom(s, i, e, n);
      }
    }
    forall k, l | 0 <= k < l < |s'| ensures s'[k].key != s'[l].key {
      var l' := ReplacedAt(chain, s, i, next, e, l);
      if k > 0 {
        var k' := ReplacedAt(chain, s, i, next, e, k);
      }
    }
    assert m'.Keys == m.Keys;
    assert |m'| == |m'.Keys| && |m| == |m.Keys|;
  }

  /** A miss: a new entry in front. */
  lemma AddedKeeps(m: map<int, Node>, chain: seq<Node>, s: seq<Entry>, next: Node, e: Entry)
    requires Shows(chain, s) && Indexes(m, chain, s) && !Has(s, e.key)
    requires next.Key == e.key && next.Value == e.value
    ensures Shows([chain[0], next] + chain[1..], [e] + s)
    ensures Indexes(m[e.key := next], [chain[0], next] + chain[1..], [e] + s)
  {
    var s', chain', m' := [e] + s, [chain[0], next] + chain[1..], m[e.key := next];
    forall k | 0 <= k < |s'|
      ensures s'[k].key in m' && m'[s'[k].key] == chain'[k + 1]
      ensures chain'[k + 1].Key == s'[k].key && chain'[k + 1].Value == s'[k].value {
      if k > 0 {
        AddedAt(m, chain, s, next, e, k - 1);
      }
    }
    forall key | key in m' ensures Has(s', key) {
      AddedHas(s, e, key);
    }
    AddedSize(m, e.key, next);
  }

  lemma AddedAt(m: map<int, Node>, chain: seq<Node>, s: seq<Entry>, next: Node, e: Entry, k: nat)
    requires |chain| == |s| + 2 && k < |s| && !Has(s, e.key)
    requires s[k].key in m && m[s[k].key] == chain[k + 1]
    ensures s[k].key in m[e.key := next] && m[e.key := next][s[k].key] == chain[k + 1]
    ensures ([e] + s)[k + 1] == s[k] && ([chain[0], next] + chain[1..])[k + 2] == chain[k + 1]
  {
  }

  lemma AddedSize(m: map<int, Node>, key: int, next: Node)
    requires key !in m
    ensures |m[key := next]| == |m| + 1
  {
    var m' := m[key := next];
    assert m'.Keys == m.Keys + {key};
    assert |m'| == |m'.Keys| && |m| == |m.Keys|;
  }

  lemma AddedDistinct(s: seq<Entry>, e: Entry)
    requires KeysDistinct(s) && !Has(s, e.key)
    ensures KeysDistinct([e] + s)
  {
  }

  lemma AddedHas(s: seq<Entry>, e: Entry, key: int)
    requires key == e.key || Has(s, key)
    ensures Has([e] + s, key)
  {
    if key == e.key {
      assert ([e] + s)[0].key == key;
    } else {
      var n :| 0 <= n < |s| && s[n].key == key;
      assert ([e] + s)[n + 1].key == key;
    }
  }

  /** An eviction: the last entry is dropped. */
  lemma EvictedKeeps(m: map<int, Node>, chain: seq<Node>, s: seq<Entry>, n: nat)
    requires Shows(chain, s) && Indexes(m, chain, s) && KeysDistinct(s) && |s| == n + 1
    ensures Shows(Dropped(chain, n + 1), s[..n]) && KeysDistinct(s[..n])
    ensures Indexes(m - {s[n].key}, Dropped(chain, n + 1), s[..n])
  {
    var m' := m - {s[n].key};
    forall key | key in m' ensures Has(s[..n], key) {
      var k :| 0 <= k < |s| && s[k].key == key;
      assert s[..n][k].key == key;
    }
    assert m'.Keys == m.Keys - {s[n].key};
    assert |m'| == |m'.Keys| && |m| == |m.Keys|;
  }

  // ---------------------------------------------------------------- the cache

  class LRUCache {
    var map_: map<int, Node>
    const linkedList: DoubleLinkedList
    const capacity: int
    /** What the cache holds, most recently used first. */
    ghost var entries: seq<Entry>

    /** With room for an entry: dictionary and list agree. A negative capacity is never reached. */
    ghost predicate Sound()
      reads this, linkedList, linkedList.repr
    {
      && linkedList.Valid() && Agree(map_, linkedList.chain, entries)
      && (capacity >= 0 ==> |entries| <= capacity)
    }

    /** Without room for an entry there never is one, and the list may have lost its header. */
    ghost predicate Valid()
      reads this, linkedList, linkedList.repr
    {
      if capacity == 0 then map_ == map[] && entries == [] && linkedList.Bare() else Sound()
    }

    constructor (capacity: int)
      ensures Valid() && entries == [] && this.capacity == capacity
      ensures fresh(linkedList) && fresh(linkedList.repr)
    {
      this.capacity := capacity;
      map_ := map[];
      linkedList := new DoubleLinkedList();
      entries := [];
    }

    method Get(key: int) returns (r: int)
      requires Valid()
      modifies this`entries, linkedList, linkedList.repr`Next, linkedList.repr`Prev
      ensures Valid() && entries == AfterGet(old(entries), key)
      ensures r == match Lookup(old(entries), key) case Some(value) => value case None => -1
      ensures linkedList.repr == old(linkedList.repr)
    {
      LookupNone(entries, key);
      if key in map_ {
        assert Sound();
        r := Touch(key);
      } else {
        r := -1;
      }
    }

    /** The node of a key goes to the front. */
    method Touch(key: int) returns (r: int)
      requires Sound() && key in map_
      modifies this`entries, linkedList, linkedList.repr`Next, linkedList.repr`Prev
      ensures Sound() && Lookup(old(entries), key) == Some(r) && entries == [Entry(key, r)] + Without(old(entries), key)
      ensures linkedList.repr == old(linkedList.repr)
    {
      ghost var i := PositionOf(key);
      var node := map_[key];
      Raise(node, i, node, entries[i]);
      assert map_ == map_[key := node];
      r := node.Value;
    }

    /** Without room for a single entry every call throws. */
    method Put(key: int, value: int) returns (ok: bool)
      requires Valid()
      modifies this`map_, this`entries, linkedList, linkedList.repr`Next, linkedList.repr`Prev
      ensures Valid() && (ok <==> capacity != 0)
      ensures entries == if ok then AfterPut(old(entries), capacity, key, value) else old(entries)
      ensures fresh(linkedList.repr - old(linkedList.repr))
    {
      LookupNone(entries, key);
      var newNode := new Node(key, value);
      ghost var e := Entry(key, value);
      if key in map_ {
        assert Sound();
        Update(newNode, e);
        ok := true;
      } else {
        ok := Insert(newNode, e);
      }
    }

    /** A new node takes the place of the one with the same key. */
    method Update(newNode: Node, ghost e: Entry)
      requires Sound() && newNode.Key in map_ && newNode !in linkedList.repr && newNode.Key == e.key
      requires newNode.Value == e.value
      modifies this`map_, this`entries, linkedList, linkedList.repr`Next, linkedList.repr`Prev,
               newNode`Next, newNode`Prev
      ensures Sound() && linkedList.repr == old(linkedList.repr) + {newNode}
      ensures entries == [e] + Without(old(entries), e.key)
    {
      var key := newNode.Key;
      assert key == e.key;
      ghost var i := PositionOf(key);
      var node := map_[key];
      Raise(node, i, newNode, e);
      map_ := map_[key := newNode];
    }

    ghost function PositionOf(key: int): (i: nat)
      requires Sound() && key in map_
      reads this, linkedList, linkedList.repr
      ensures i < |entries| && entries[i].key == key && map_[key] == linkedList.chain[i + 1]
      ensures Lookup(entries, key) == Some(entries[i].value) && Without(entries, key) == entries[..i] + entries[i + 1..]
    {
      var i: nat :| i < |entries| && entries[i].key == key;
      LookupAt(entries, i);
      i
    }

    /** A hit: the node of an entry is taken out, and the same or a new node goes in front. */
    method Raise(node: Node, ghost i: nat, next: Node, ghost e: Entry)
      requires Sound() && i < |entries| && node == linkedList.chain[i + 1]
      requires e.key == entries[i].key && next.Key == e.key && next.Value == e.value
      requires next == node || next !in linkedList.chain
      modifies this`entries, linkedList, linkedList.repr`Next, linkedList.repr`Prev, next`Next, next`Prev
      ensures linkedList.Valid() && entries == ReplacedEntry(old(entries), i, e)
      ensures Agree(map_[e.key := next], linkedList.chain, entries)
      ensures linkedList.repr == old(linkedList.repr) + {next}
    {
      ReplacedKeeps(map_, linkedList.chain, entries, i, next, e);
      entries := ReplacedEntry(entries, i, e);
      linkedList.Replace(node, i + 1, next);
    }

    /** A miss: the last node makes room for the new one if the cache is full. */
    method Insert(newNode: Node, ghost e: Entry) returns (ok: bool)
      requires Valid() && !Has(entries, e.key)
      requires newNode !in linkedList.repr && newNode.Key == e.key && newNode.Value == e.value
      modifies this`map_, this`entries, linkedList, linkedList.repr`Next, linkedList.repr`Prev,
               newNode`Next, newNode`Prev
      ensures Valid() && (ok <==> capacity != 0)
      ensures linkedList.repr == old(linkedList.repr) + if ok then {newNode} else {}
      ensures ok ==>
                entries == [e] + if |old(entries)| == capacity then old(entries)[..|old(entries)| - 1] else old(entries)
      ensures !ok ==> entries == []
    {
      if |map_| == capacity {
        var evicted := Evict();
        if !evicted {
          return false;
        }
      }
      Link(newNode, e);
      return true;
    }

    method Link(newNode: Node, ghost e: Entry)
      requires Sound() && (capacity >= 0 ==> |entries| < capacity) && !Has(entries, e.key)
      requires newNode !in linkedList.repr && newNode.Key == e.key && newNode.Value == e.value
      modifies this`map_, this`entries, linkedList, linkedList.repr`Next, linkedList.repr`Prev,
               newNode`Next, newNode`Prev
      ensures Sound() && entries == [e] + old(entries) && linkedList.repr == old(linkedList.repr) + {newNode}
    {
      AddedKeeps(map_, linkedList.chain, entries, newNode, e);
      AddedDistinct(entries, e);
      map_ := map_[newNode.Key := newNode];
      linkedList.AddHeader(newNode);
      entries := [e] + entries;
    }

    method Evict() returns (ok: bool)
      requires Valid() && |map_| == capacity
      modifies this`map_, this`entries, linkedList, linkedList.repr`Next, linkedList.repr`Prev
      ensures Valid() && (ok <==> capacity != 0) && linkedList.repr == old(linkedList.repr)
      ensures entries == if ok then old(entries)[..|old(entries)| - 1] else []
    {
      var lastNode := linkedList.GetLastNode();
      if capacity != 0 {
        LastIsLinked();
      }
      if lastNode == null || lastNode.Prev == null {
        linkedList.RemoveHeader(lastNode);
        return false;
      }
      DropLast(lastNode);
      return true;
    }

    lemma LastIsLinked()
      requires Sound() && entries != []
      ensures linkedList.tail.Prev == linkedList.chain[|entries|]
      ensures linkedList.chain[|entries|].Prev != null
    {
      ghost var n := |entries|;
      assert linkedList.chain[n + 1].Prev == linkedList.chain[n];
      assert linkedList.chain[n].Prev == linkedList.chain[n - 1];
    }

    method DropLast(lastNode: Node)
      requires Sound() && entries != [] && lastNode == linkedList.chain[|entries|]
      modifies this`map_, this`entries, linkedList, linkedList.repr`Next, linkedList.repr`Prev
      ensures Sound() && entries == old(entries)[..|old(entries)| - 1]
      ensures linkedList.repr == old(linkedList.repr)
    {
      ghost var n := |entries| - 1;
      EvictedKeeps(map_, linkedList.chain, entries, n);
      map_ := map_ - {lastNode.Key};
      entries := entries[..n];
      linkedList.RemoveNode(lastNode, n + 1);
    }
  }
}
