/**
 The doubly linked list behind pkg/cache/lru.go (head = most recently used, tail = least
 recently used), with the operations the cache calls on it.
 */
module RecencyList {
  import opened Wrappers
  import opened LruModel

  class Element<V> {
    const key: string
    var value: V
    var expireAt: Option<int>
    var prev: Element?<V>
    var next: Element?<V>

    constructor (key: string, value: V, expireAt: Option<int>)
      ensures this.key == key && this.value == value && this.expireAt == expireAt
      ensures prev == null && next == null
    {
      this.key, this.value, this.expireAt := key, value, expireAt;
      prev, next := null, null;
    }
  }

  ghost predicate NoDup<T>(s: seq<T>) {
    forall i, j :: 0 <= i < j < |s| ==> s[i] != s[j]
  }

  ghost predicate Within<T>(s: seq<T>, repr: set<T>) {
    forall i :: 0 <= i < |s| ==> s[i] in repr
  }

  class List<V> {
    var front: Element?<V>
    var back: Element?<V>
    var len: nat
    // The list from head to tail, and what each element carries.
    ghost var nodes: seq<Element<V>>
    ghost var entries: seq<Entry<V>>
    // Every element that ever was in the list.
    ghost var repr: set<Element<V>>

    ghost predicate Valid()
      reads this, repr
    {
      && len == |nodes| == |entries|
      && Within(nodes, repr)
      && NoDup(nodes)
      && (len == 0 ==> front == null && back == null)
      && (len > 0 ==> front == nodes[0] && back == nodes[len - 1])
      && (len > 0 ==> nodes[0].prev == null && nodes[len - 1].next == null)
      && (forall i {:trigger nodes[i].prev} :: 0 < i < len ==> nodes[i].prev == nodes[i - 1])
      && (forall i {:trigger nodes[i].next} :: 0 <= i < len - 1 ==> nodes[i].next == nodes[i + 1])
      && (forall i {:trigger entries[i]} {:trigger nodes[i].value} {:trigger nodes[i].expireAt} :: 0 <= i < len ==>
            entries[i] == Entry(nodes[i].key, nodes[i].value, nodes[i].expireAt))
    }

    constructor ()
      ensures Valid() && nodes == [] && repr == {}
    {
      front, back, len, nodes, entries, repr := null, null, 0, [], [], {};
    }

    method Init()
      modifies this
      ensures Valid() && nodes == [] && repr == old(repr)
    {
      front, back, len, nodes, entries := null, null, 0, [], [];
    }

    // Overwrite what the element at position `i` carries.
    method Overwrite(e: Element<V>, ghost i: nat, value: V, expireAt: Option<int>)
      requires Valid() && i < |nodes| && nodes[i] == e
      modifies this`entries, e`value, e`expireAt
      ensures Valid() && entries == old(entries)[i := Entry(e.key, value, expireAt)]
    {
      e.value, e.expireAt := value, expireAt;
      entries := entries[i := Entry(e.key, value, expireAt)];
    }

    method PushFront(e: Element<V>)
      requires Valid() && e !in nodes
      modifies this, e`prev, e`next, repr`prev
      ensures Valid() && nodes == [e] + old(nodes) && repr == old(repr) + {e}
      ensures entries == [Entry(e.key, e.value, e.expireAt)] + old(entries)
    {
      ghost var was := nodes;
      e.prev, e.next := null, front;
      if front == null {
        back := e;
      } else {
        front.prev := e;
      }
      front := e;
      len := len + 1;
      nodes, entries, repr := [e] + nodes, [Entry(e.key, e.value, e.expireAt)] + entries, repr + {e};
      assert forall j {:trigger nodes[j]} :: 0 < j < |nodes| ==> nodes[j] == was[j - 1];
    }

    // The element before `e` comes to point at the one after it.
    method BypassForward(e: Element<V>, ghost i: nat)
      requires Valid() && i < len && nodes[i] == e
      modifies this`front, repr`next
      ensures e.next == old(e.next)
      ensures front == if i == 0 then (if len == 1 then null else nodes[1]) else old(front)
      ensures forall j {:trigger nodes[j].next} :: 0 <= j < len && j != i ==>
                nodes[j].next == if j == len - 1 || (j == len - 2 && i == len - 1) then null
                                 else if j == i - 1 then nodes[i + 1] else nodes[j + 1]
    {
      assert i > 0 ==> nodes[i].prev == nodes[i - 1];
      assert i < len - 1 ==> nodes[i].next == nodes[i + 1];
      if e.prev == null {
        front := e.next;
      } else {
        e.prev.next := e.next;
      }
    }

    // The element after `e` comes to point at the one before it.
    method BypassBackward(e: Element<V>, ghost i: nat)
      requires len == |nodes| && i < len && nodes[i] == e && Within(nodes, repr) && NoDup(nodes)
      requires nodes[0].prev == null && e.next == if i == len - 1 then null else nodes[i + 1]
      requires forall j {:trigger nodes[j].prev} :: 0 < j < len ==> nodes[j].prev == nodes[j - 1]
      modifies this`back, repr`prev
      ensures back == if i == len - 1 then (if len == 1 then null else nodes[len - 2]) else old(back)
      ensures forall j {:trigger nodes[j].prev} :: 0 <= j < len && j != i ==>
                nodes[j].prev == if j == 0 || (j == 1 && i == 0) then null
                                 else if j == i + 1 then nodes[i - 1] else nodes[j - 1]
    {
      assert i > 0 ==> nodes[i].prev == nodes[i - 1];
      if e.next == null {
        back := e.prev;
      } else {
        e.next.prev := e.prev;
      }
      e.prev := null;
    }

    // Once the links skip position `i`, it can be dropped from the ghost view.
    ghost method Reindex(i: nat)
      requires i < |nodes| == len + 1 == |entries| && Within(nodes, repr) && NoDup(nodes)
      requires len > 0 ==> front == nodes[if i == 0 then 1 else 0] && back == nodes[if i == len then len - 1 else len]
      requires len == 0 ==> front == null && back == null
      requires forall j {:trigger nodes[j].next} :: 0 <= j <= len && j != i ==>
                 nodes[j].next == if j == len || (j == len - 1 && i == len) then null
                                  else if j == i - 1 then nodes[i + 1] else nodes[j + 1]
      requires forall j {:trigger nodes[j].prev} :: 0 <= j <= len && j != i ==>
                 nodes[j].prev == if j == 0 || (j == 1 && i == 0) then null
                                  else if j == i + 1 then nodes[i - 1] else nodes[j - 1]
      requires forall j {:trigger entries[j]} :: 0 <= j <= len ==>
                 entries[j] == Entry(nodes[j].key, nodes[j].value, nodes[j].expireAt)
      modifies this`nodes, this`entries
      ensures Valid() && nodes == Cut(old(nodes), i) && entries == Cut(old(entries), i)
    {
      ghost var s, es := Cut(nodes, i), Cut(entries, i);
      assert NoDup(s) && Within(s, repr);
      assert forall j {:trigger s[j].next} :: 0 <= j < len - 1 ==> s[j].next == s[j + 1];
      assert forall j {:trigger s[j].prev} :: 0 < j < len ==> s[j].prev == s[j - 1];
      nodes, entries := s, es;
    }

    method Remove(e: Element<V>, ghost i: nat)
      requires Valid() && i < |nodes| && nodes[i] == e
      modifies this, repr`prev, repr`next
      ensures Valid() && nodes == Cut(old(nodes), i) && entries == Cut(old(entries), i) && repr == old(repr)
    {
      assert i < len - 1 ==> nodes[i].next == nodes[i + 1];
      BypassForward(e, i);
      BypassBackward(e, i);
      e.next := null;
      len := len - 1;
      Reindex(i);
    }

    method MoveToFront(e: Element<V>, ghost i: nat)
      requires Valid() && i < |nodes| && nodes[i] == e
      modifies this, repr`prev, repr`next
      ensures Valid() && nodes == [e] + Cut(old(nodes), i) && repr == old(repr)
      ensures entries == [old(entries[i])] + Cut(old(entries), i)
    {
      Remove(e, i);
      PushFront(e);
    }
  }
}
