/** The kernel's doubly linked list of pointers. */
module LinkedList {
  import opened Sequences

  /** Pointers are addresses, and NULL is 0. */
  type Ptr = int
  const NULL: Ptr := 0
  const NOT_FOUND: int := 0xFFFF_FFFF

  class ListNode {
    var data: Ptr
    var prev: ListNode?
    var next: ListNode?

    constructor (ptr: Ptr)
      ensures data == ptr && prev == null && next == null
    {
      data, prev, next := ptr, null, null;
    }

    /** listnode_free: hands the pointer back and clears the node. */
    method Release() returns (ptr: Ptr)
      modifies this
      ensures ptr == old(data) && data == NULL && prev == null && next == null
    {
      ptr := data;
      prev, next, data := null, null, NULL;
    }
  }

  function At(ns: seq<ListNode>, i: int): ListNode? {
    if 0 <= i < |ns| then ns[i] else null
  }

  /** Node i is linked to its neighbours, both ways. */
  predicate Linked(ns: seq<ListNode>, i: int)
    requires 0 <= i < |ns|
    reads ns
  {
    ns[i].next == At(ns, i + 1) && ns[i].prev == At(ns, i - 1)
  }

  ghost predicate NoRepeats(ns: seq<ListNode>) {
    forall i, j :: 0 <= i < j < |ns| ==> ns[i] != ns[j]
  }

  lemma ChainParts(ns: seq<ListNode>)
    requires Chain(ns)
    ensures NoRepeats(ns) && forall i :: 0 <= i < |ns| ==> Linked(ns, i)
  {
  }

  lemma Differ(ns: seq<ListNode>, i: int, j: int)
    requires NoRepeats(ns) && 0 <= i < |ns| && i != j
    ensures ns[i] != At(ns, j)
  {
    assert i < j || j < i;
  }

  ghost predicate Chain(ns: seq<ListNode>)
    reads ns
  {
    NoRepeats(ns) && forall i :: 0 <= i < |ns| ==> Linked(ns, i)
  }

  ghost function Data(ns: seq<ListNode>): (s: seq<Ptr>)
    reads ns
    ensures |s| == |ns| && forall i :: 0 <= i < |ns| ==> s[i] == ns[i].data
  {
    seq(|ns|, i requires 0 <= i < |ns| reads ns => ns[i].data)
  }

  function With<T>(s: seq<T>, k: int, x: T): (r: seq<T>)
    requires 0 <= k <= |s|
    ensures |r| == |s| + 1
  {
    s[..k] + [x] + s[k..]
  }

  lemma WithLast<T>(s: seq<T>, x: T)
    ensures With(s, |s|, x) == s + [x]
  {
  }

  lemma WithIs<T>(s: seq<T>, k: int, x: T)
    requires 0 <= k <= |s|
    ensures With(s, k, x) == s[..k] + [x] + s[k..]
  {
  }

  lemma WithFirst<T>(s: seq<T>, x: T)
    ensures With(s, 0, x) == [x] + s
  {
  }

  lemma DataWithout(ns: seq<ListNode>, k: int, d: seq<Ptr>)
    requires 0 <= k < |ns| == |d| && forall i :: 0 <= i < |ns| && i != k ==> ns[i].data == d[i]
    ensures Data(Without(ns, k)) == Without(d, k)
  {
  }

  lemma DataWith(ns: seq<ListNode>, k: int, node: ListNode, d: seq<Ptr>)
    requires 0 <= k <= |ns| == |d| && forall i :: 0 <= i < |ns| ==> ns[i].data == d[i]
    ensures Data(With(ns, k, node)) == With(d, k, node.data)
  {
  }

  /** Node i's links once node k has been taken out between its neighbours. */
  predicate LinkedPast(ns: seq<ListNode>, i: int, k: int)
    requires 0 <= i < |ns|
    reads ns
  {
    ns[i].next == At(ns, if i == k - 1 then k + 1 else i + 1) &&
      ns[i].prev == At(ns, if i == k + 1 then k - 1 else i - 1)
  }

  lemma ChainWithout(ns: seq<ListNode>, k: int)
    requires 0 <= k < |ns| && NoRepeats(ns)
    requires forall i :: 0 <= i < |ns| && i != k ==> LinkedPast(ns, i, k)
    ensures Chain(Without(ns, k)) && At(Without(ns, k), 0) == At(ns, if k == 0 then 1 else 0)
    ensures At(Without(ns, k), |ns| - 2) == At(ns, if k == |ns| - 1 then |ns| - 2 else |ns| - 1)
  {
    var ws := Without(ns, k);
    assert |ws| == |ns| - 1 && forall i :: 0 <= i < |ws| ==> ws[i] == ns[if i < k then i else i + 1];
    hide Without;
    forall i | 0 <= i < |ws| ensures Linked(ws, i) {
      assert LinkedPast(ns, if i < k then i else i + 1, k);
    }
  }

  /** Node i's links once a node has been put in at position k. */
  predicate LinkedAround(ns: seq<ListNode>, i: int, k: int, node: ListNode)
    requires 0 <= i < |ns|
    reads ns
  {
    ns[i].next == (if i == k - 1 then node else At(ns, i + 1)) && ns[i].prev == (if i == k then node else At(ns, i - 1))
  }

  lemma ChainWith(ns: seq<ListNode>, k: int, node: ListNode)
    requires 0 <= k <= |ns| && NoRepeats(ns) && node !in ns
    requires forall i :: 0 <= i < |ns| ==> LinkedAround(ns, i, k, node)
    requires node.next == At(ns, k) && node.prev == At(ns, k - 1)
    ensures Chain(With(ns, k, node)) && At(With(ns, k, node), 0) == (if k == 0 then node else At(ns, 0))
    ensures At(With(ns, k, node), |ns|) == (if k == |ns| then node else At(ns, |ns| - 1))
  {
    var ws := With(ns, k, node);
    assert |ws| == |ns| + 1 && ws[k] == node && forall i :: 0 <= i < |ws| && i != k ==>
      ws[i] == ns[if i < k then i else i - 1];
    hide With;
    forall i | 0 <= i < |ws| ensures Linked(ws, i) {
      if i != k {
        assert LinkedAround(ns, if i < k then i else i - 1, k, node);
      }
    }
  }

  class List {
    var head: ListNode?
    var tail: ListNode?
    var count: int
    ghost var nodes: seq<ListNode>

    ghost predicate Valid()
      reads this, nodes
    {
      Chain(nodes) && count == |nodes| && head == At(nodes, 0) && tail == At(nodes, |nodes| - 1)
    }

    ghost function Contents(): seq<Ptr>
      reads this, nodes
    {
      Data(nodes)
    }

    constructor ()
      ensures Valid() && Contents() == [] && nodes == []
    {
      head, tail, count, nodes := null, null, 0, [];
    }

    method Append(ptr: Ptr) returns (node: ListNode?)
      requires Valid()
      modifies this, nodes
      ensures Valid()
      ensures node == null ==> nodes == old(nodes) && Contents() == old(Contents())
      ensures node != null ==> fresh(node) && nodes == old(nodes) + [node] && Contents() == old(Contents()) + [ptr]
    {
      hide Chain, Data, With, NoRepeats;
      ChainParts(nodes);
      if * {
        return null;
      }
      var n := new ListNode(ptr);
      if tail != null {
        tail.next := n;
      }
      n.prev := tail;
      tail := n;
      if head == null {
        head := n;
      }
      count := count + 1;
      forall i | 0 <= i < |nodes| ensures LinkedAround(nodes, i, |nodes|, n) {
        assert old(Linked(nodes, i));
        if i != |nodes| - 1 {
          Differ(nodes, i, |nodes| - 1);
        }
      }
      ChainWith(nodes, |nodes|, n);
      DataWith(nodes, |nodes|, n, old(Contents()));
      WithLast(old(Contents()), ptr);
      WithLast(nodes, n);
      nodes := nodes + [n];
      node := n;
    }

    method Prepend(ptr: Ptr) returns (node: ListNode?)
      requires Valid()
      modifies this, nodes
      ensures Valid()
      ensures node == null ==> nodes == old(nodes) && Contents() == old(Contents())
      ensures node != null ==> fresh(node) && nodes == [node] + old(nodes) && Contents() == [ptr] + old(Contents())
    {
      hide Chain, Data, With, NoRepeats;
      ChainParts(nodes);
      if * {
        return null;
      }
      var n := new ListNode(ptr);
      n.next := head;
      if head != null {
        head.prev := n;
      }
      head := n;
      if tail == null {
        tail := n;
      }
      count := count + 1;
      forall i | 0 <= i < |nodes| ensures LinkedAround(nodes, i, 0, n) {
        assert old(Linked(nodes, i));
        if i != 0 {
          Differ(nodes, i, 0);
        }
      }
      ChainWith(nodes, 0, n);
      DataWith(nodes, 0, n, old(Contents()));
      WithFirst(old(Contents()), ptr);
      WithFirst(nodes, n);
      nodes := [n] + nodes;
      node := n;
    }

    /** The node at an index, found by following next. */
    method Walk(index: int) returns (cur: ListNode)
      requires Valid() && 0 <= index < |nodes|
      ensures cur == nodes[index]
    {
      assert Linked(nodes, 0);
      cur := head;
      var i := 0;
      while i < index
        invariant 0 <= i <= index && cur == nodes[i]
      {
        assert Linked(nodes, i);
        cur := cur.next;
        i := i + 1;
      }
    }

    /** Inserts before the given position, which is clamped to the list. */
    method Insert(ptr: Ptr, before: int) returns (node: ListNode?)
      requires Valid() && 0 <= before
      modifies this, nodes
      ensures Valid()
      ensures node == null ==> nodes == old(nodes) && Contents() == old(Contents())
      ensures node != null ==>
        var k := if before < |old(nodes)| then before else |old(nodes)|;
        fresh(node) && nodes == old(nodes)[..k] + [node] + old(nodes)[k..] &&
        Contents() == With(old(Contents()), k, ptr)
    {
      hide Data;
      if before == 0 {
        node := Prepend(ptr);
        return;
      }
      if before >= count {
        node := Append(ptr);
        return;
      }
      var cur := Walk(before);
      node := InsertBefore(cur, ptr, before);
    }

    /** Puts a new node between a node and its predecessor. */
    method InsertBefore(cur: ListNode, ptr: Ptr, ghost k: int) returns (node: ListNode?)
      requires Valid() && 0 < k < |nodes| && nodes[k] == cur
      modifies this, nodes
      ensures Valid()
      ensures node == null ==> nodes == old(nodes) && Contents() == old(Contents())
      ensures node != null ==>
        fresh(node) && nodes == old(nodes)[..k] + [node] + old(nodes)[k..] &&
        Contents() == With(old(Contents()), k, ptr)
    {
      hide Chain, Data, With, NoRepeats;
      ChainParts(nodes);
      if * {
        return null;
      }
      assert Linked(nodes, k);
      var n := new ListNode(ptr);
      var left := cur.prev;
      left.next := n;
      n.prev := left;
      n.next := cur;
      cur.prev := n;
      count := count + 1;
      forall i | 0 <= i < |nodes| ensures LinkedAround(nodes, i, k, n) {
        assert old(Linked(nodes, i));
        if i != k {
          Differ(nodes, i, k);
        }
        if i != k - 1 {
          Differ(nodes, i, k - 1);
        }
      }
      ChainWith(nodes, k, n);
      DataWith(nodes, k, n, old(Contents()));
      WithIs(nodes, k, n);
      nodes := With(nodes, k, n);
      node := n;
    }

    method First() returns (ptr: Ptr)
      requires Valid()
      ensures ptr == if |nodes| > 0 then Contents()[0] else NULL
    {
      return if head != null then head.data else NULL;
    }

    method Last() returns (ptr: Ptr)
      requires Valid()
      ensures ptr == if |nodes| > 0 then Contents()[|nodes| - 1] else NULL
    {
      return if tail != null then tail.data else NULL;
    }

    /** list_at */
    method Get(index: int) returns (ptr: Ptr)
      requires Valid() && 0 <= index
      ensures ptr == if index < |nodes| then Contents()[index] else NULL
    {
      if index >= count {
        return NULL;
      }
      var cur := Walk(index);
      return cur.data;
    }

    /** list_index: the least position of the pointer. */
    method Index(ptr: Ptr) returns (k: int)
      requires Valid() && |nodes| < NOT_FOUND
      ensures ptr !in Contents() ==> k == 0xFFFF_FFFF
      ensures ptr in Contents() ==> 0 <= k < |nodes| && Contents()[k] == ptr && ptr !in Contents()[..k]
    {
      hide Data;
      var cur := head;
      k := 0;
      while cur != null
        invariant 0 <= k <= |nodes| && cur == At(nodes, k) && ptr !in Contents()[..k]
        decreases |nodes| - k
      {
        if cur.data == ptr {
          return;
        }
        assert Linked(nodes, k) && Contents()[..k + 1] == Contents()[..k] + [cur.data];
        cur := cur.next;
        k := k + 1;
      }
      return NOT_FOUND;
    }

    /** The part of list_unchain that links the neighbours of a node to each other. */
    method Bypass(node: ListNode, ghost k: int)
      requires Valid() && 0 <= k < |nodes| && nodes[k] == node
      modifies this, nodes
      ensures nodes == old(nodes) && NoRepeats(nodes) && count == old(count) - 1
      ensures head == At(nodes, if k == 0 then 1 else 0)
      ensures tail == At(nodes, if k == |nodes| - 1 then |nodes| - 2 else |nodes| - 1)
      ensures forall i :: 0 <= i < |nodes| ==> nodes[i].data == old(nodes[i].data)
      ensures forall i :: 0 <= i < |nodes| && i != k ==> LinkedPast(nodes, i, k)
    {
      hide NoRepeats;
      assert Linked(nodes, k);
      Differ(nodes, k, k - 1);
      Differ(nodes, k, k + 1);
      var left, right := node.prev, node.next;
      if left != null {
        left.next := right;
      } else {
        head := node.next;
      }
      if right != null {
        right.prev := left;
      } else {
        tail := node.prev;
      }
      count := count - 1;
      forall i | 0 <= i < |nodes| && i != k ensures LinkedPast(nodes, i, k) {
        assert old(Linked(nodes, i));
        if i != k - 1 {
          Differ(nodes, i, k - 1);
        }
        if i != k + 1 {
          Differ(nodes, i, k + 1);
        }
      }
    }

    /** list_unchain */
    method Unchain(node: ListNode, ghost k: int) returns (ptr: Ptr)
      requires Valid() && 0 <= k < |nodes| && nodes[k] == node
      modifies this, nodes
      ensures Valid() && nodes == Without(old(nodes), k) && Contents() == Without(old(Contents()), k)
      ensures ptr == old(Contents())[k] && node.data == NULL && node.prev == null && node.next == null
    {
      hide Chain, Data, Without, NoRepeats;
      Bypass(node, k);
      label bypassed:
      ptr := node.Release();
      forall i | 0 <= i < |nodes| && i != k ensures LinkedPast(nodes, i, k) {
        assert old@bypassed(LinkedPast(nodes, i, k));
        Differ(nodes, i, k);
      }
      forall i | 0 <= i < |nodes| && i != k ensures nodes[i].data == old(nodes[i].data) {
        Differ(nodes, i, k);
      }
      ChainWithout(nodes, k);
      DataWithout(nodes, k, old(Contents()));
      nodes := Without(nodes, k);
    }

    method Remove(at: int) returns (ptr: Ptr)
      requires Valid() && 0 <= at
      modifies this, nodes
      ensures Valid()
      ensures at >= |old(nodes)| ==> ptr == NULL && nodes == old(nodes) && Contents() == old(Contents())
      ensures at < |old(nodes)| ==>
        ptr == old(Contents())[at] && nodes == Without(old(nodes), at) && Contents() == Without(old(Contents()), at)
    {
      if head == null || at >= count {
        return NULL;
      }
      var cur := Walk(at);
      ptr := Unchain(cur, at);
    }

    /** list_delete: removes the first occurrence of the pointer. */
    method Delete(ptr: Ptr) returns (r: Ptr)
      requires Valid()
      modifies this, nodes
      ensures Valid()
      ensures ptr !in old(Contents()) ==> r == NULL && nodes == old(nodes) && Contents() == old(Contents())
      ensures ptr in old(Contents()) ==>
        r == ptr &&
        (exists k :: 0 <= k < |old(nodes)| && old(Contents())[k] == ptr && ptr !in old(Contents())[..k] &&
                     nodes == Without(old(nodes), k) && Contents() == Without(old(Contents()), k))
    {
      var cur := head;
      ghost var k := 0;
      while cur != null
        invariant 0 <= k <= |nodes| && cur == At(nodes, k) && Valid() && nodes == old(nodes) &&
          Contents() == old(Contents())
        invariant ptr !in Contents()[..k]
        decreases |nodes| - k
      {
        if cur.data == ptr {
          r := Unchain(cur, k);
          return;
        }
        assert Linked(nodes, k);
        cur := cur.next;
        k := k + 1;
      }
      return NULL;
    }

    method PopHead() returns (ptr: Ptr)
      requires Valid()
      modifies this, nodes
      ensures Valid()
      ensures |old(nodes)| == 0 ==> ptr == NULL && nodes == []
      ensures |old(nodes)| > 0 ==> ptr == old(Contents())[0] && Contents() == old(Contents())[1..]
    {
      if head == null {
        return NULL;
      }
      ptr := Unchain(head, 0);
    }

    method PopTail() returns (ptr: Ptr)
      requires Valid()
      modifies this, nodes
      ensures Valid()
      ensures |old(nodes)| == 0 ==> ptr == NULL && nodes == []
      ensures |old(nodes)| > 0 ==>
        ptr == old(Contents())[|old(nodes)| - 1] && Contents() == old(Contents())[..|old(nodes)| - 1]
    {
      if tail == null {
        return NULL;
      }
      ptr := Unchain(tail, |nodes| - 1);
    }

    /** list_empty: the list ends empty, but next is read after it was cleared, so only the first node is released. */
    method Empty()
      requires Valid()
      modifies this, nodes
      ensures Valid() && nodes == []
      ensures |old(nodes)| > 0 ==> old(nodes)[0].data == NULL && old(nodes)[0].next == null
      ensures forall i :: 1 <= i < |old(nodes)| ==> unchanged(old(nodes)[i])
    {
      var cur := head;
      if count != 0 {
        while cur != null
          invariant cur == head || (cur == null && head != null && head.data == NULL && head.next == null)
          invariant cur == head ==> nodes == old(nodes) && forall i :: 0 <= i < |nodes| ==> unchanged(nodes[i])
          invariant nodes == old(nodes) && head == old(head) && forall i :: 1 <= i < |nodes| ==> unchanged(nodes[i])
          decreases if cur == null then 0 else 1
        {
          var released := cur.Release();
          cur := cur.next;
        }
        head, tail, count, nodes := null, null, 0, [];
      }
    }
  }
}
