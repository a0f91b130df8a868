/** Lists whose links are fields of their elements. */
module IntrusiveLists {
  import opened Sequences

  /** The position of an element that is there. */
  ghost function IndexOf<T>(s: seq<T>, x: T): (k: nat)
    requires x in s
    ensures k < |s| && s[k] == x
  {
    if s[0] == x then 0 else 1 + IndexOf(s[1..], x)
  }

  ghost function Without<T>(s: seq<T>, x: T): seq<T> {
    if x in s then s[..IndexOf(s, x)] + s[IndexOf(s, x) + 1..] else s
  }

  /** In a sequence without repetitions, removing an element takes away nothing else. */
  lemma WithoutIs<T>(s: seq<T>, k: nat) returns (e: seq<T>)
    requires Distinct(s) && k < |s|
    ensures e == Without(s, s[k]) && |e| == |s| - 1
    ensures forall i {:trigger e[i]} :: 0 <= i < |e| ==> e[i] == s[if i < k then i else i + 1]
    ensures Distinct(e) && s[k] !in e
  {
    e := s[..k] + s[k + 1..];
    assert IndexOf(s, s[k]) == k;
  }

  lemma OnlyThere<T>(s: seq<T>, k: nat)
    requires Distinct(s) && k < |s|
    ensures forall j {:trigger s[j]} :: 0 <= j < |s| && s[j] == s[k] ==> j == k
  {
  }

  lemma InsertedAt<T>(s: seq<T>, k: nat, x: T) returns (e: seq<T>)
    requires Distinct(s) && x !in s && k <= |s|
    ensures e == s[..k] + [x] + s[k..] && |e| == |s| + 1 && Distinct(e) && e[k] == x
    ensures forall i {:trigger e[i]} :: 0 <= i < |e| && i != k ==> e[i] == s[if i < k then i else i - 1]
  {
    e := s[..k] + [x] + s[k..];
  }

  // ----- queue -----

  class QueueNode {
    var next: QueueNode?

    constructor ()
      ensures next == null
    {
      next := null;
    }
  }

  class IntrusiveQueue {
    var head: QueueNode?
    var tail: QueueNode?
    ghost var nodes: seq<QueueNode>

    ghost predicate Valid()
      reads this, nodes
    {
      && Distinct(nodes)
      && (nodes == [] ==> head == null && tail == null)
      && (nodes != [] ==> head == nodes[0] && tail == nodes[|nodes| - 1])
      && forall i {:trigger nodes[i].next} :: 0 <= i < |nodes| ==>
        nodes[i].next == if i + 1 < |nodes| then nodes[i + 1] else null
    }

    constructor ()
      ensures Valid() && nodes == []
    {
      head, tail, nodes := null, null, [];
    }

    method Size() returns (sz: nat)
      requires Valid()
      ensures sz == |nodes|
    {
      sz := 0;
      var node := head;
      while node != null
        invariant sz <= |nodes| && node == if sz < |nodes| then nodes[sz] else null
        decreases |nodes| - sz
      {
        sz := sz + 1;
        node := node.next;
      }
    }

    /** Appends a node that is in no queue, and ignores all others. */
    method Push(newNode: QueueNode)
      requires Valid()
      modifies this, nodes
      ensures Valid()
      ensures nodes == if newNode in old(nodes) || old(newNode.next) != null then old(nodes) else old(nodes) + [newNode]
    {
      assert newNode in nodes ==> newNode.next != null || newNode == tail by {
        if newNode in nodes {
          var i := IndexOf(nodes, newNode);
        }
      }
      if newNode.next != null || newNode == tail {
        return;
      }
      if head == null {
        head := newNode;
      }
      if tail != null {
        tail.next := newNode;
      }
      tail := newNode;
      nodes := nodes + [newNode];
    }

    /** Takes the oldest node and clears its link. */
    method Pop() returns (ret: QueueNode?)
      requires Valid()
      modifies this, nodes
      ensures Valid()
      ensures if old(nodes) == [] then ret == null && nodes == []
        else ret == old(nodes)[0] && nodes == old(nodes)[1..] && ret.next == null
    {
      ret := head;
      if head != null {
        if head != tail {
          head := head.next;
        } else {
          head, tail := null, null;
        }
        ret.next := null;
        nodes := nodes[1..];
      }
    }

    method Remove(removeNode: QueueNode) returns (removed: bool)
      requires Valid()
      modifies this, nodes
      ensures Valid() && removed == (removeNode in old(nodes))
      ensures nodes == Without(old(nodes), removeNode)
      ensures removed ==> removeNode.next == null
      ensures !removed ==> removeNode.next == old(removeNode.next)
    {
      hide Without, Distinct;
      if removeNode == head {
        RemoveHead(removeNode);
        return true;
      }
      var node;
      ghost var k;
      node, k := FindBefore(removeNode);
      if node == null {
        return false;
      }
      Unlink(node, removeNode, k);
      return true;
    }

    method RemoveHead(removeNode: QueueNode)
      requires Valid() && removeNode == head
      modifies this, nodes
      ensures Valid() && nodes == Without(old(nodes), removeNode) && removeNode.next == null && removeNode in old(nodes)
    {
      hide Without, Distinct;
      ghost var was := nodes;
      ghost var e := WithoutIs(nodes, 0);
      OnlyThere(was, 0);
      if head.next != null {
        head := head.next;
        removeNode.next := null;
      } else {
        head, tail := null, null;
      }
      forall i | 0 <= i < |e| ensures e[i].next == if i + 1 < |e| then e[i + 1] else null {
        var j := i + 1;
        assert e[i] == was[j];
        assert old(was[j].next == if j + 1 < |was| then was[j + 1] else null);
      }
      nodes := e;
    }

    /** The node whose sibling is to be removed. */
    method FindBefore(removeNode: QueueNode) returns (node: QueueNode?, ghost k: nat)
      requires Valid() && removeNode != head
      ensures node == null ==> removeNode !in nodes && Without(nodes, removeNode) == nodes
      ensures node != null ==> k + 1 < |nodes| && node == nodes[k] && removeNode == nodes[k + 1] && removeNode in nodes
    {
      node := head;
      k := 0;
      while node != null
        invariant k <= |nodes| && node == if k < |nodes| then nodes[k] else null
        invariant forall i :: 0 <= i <= k && i < |nodes| ==> nodes[i] != removeNode
        decreases |nodes| - k
      {
        if node.next == removeNode {
          return;
        }
        node := node.next;
        k := k + 1;
      }
    }

    /** Take out the node after position k. */
    method Unlink(node: QueueNode, removeNode: QueueNode, ghost k: nat)
      requires Valid() && k + 1 < |nodes| && node == nodes[k] && removeNode == nodes[k + 1]
      modifies this, nodes
      ensures Valid() && nodes == Without(old(nodes), removeNode) && removeNode.next == null
    {
      hide Without, Distinct;
      ghost var was := nodes;
      ghost var e := WithoutIs(nodes, k + 1);
      OnlyThere(was, k);
      OnlyThere(was, k + 1);
      if removeNode == tail {
        tail := node;
      }
      node.next := removeNode.next;
      removeNode.next := null;
      forall i | 0 <= i < |e| ensures e[i].next == if i + 1 < |e| then e[i + 1] else null {
        if i < k {
          assert old(was[i].next) == was[i + 1];
        } else if i > k {
          assert old(was[i + 1].next) == if i + 2 < |was| then was[i + 2] else null;
        } else {
          assert old(removeNode.next) == if k + 2 < |was| then was[k + 2] else null;
        }
      }
      nodes := e;
    }
  }

  // ----- sorted list -----

  class SortedNode {
    const key: int
    var sibling: SortedNode?

    constructor (key: int)
      ensures this.key == key && sibling == null
    {
      this.key, sibling := key, null;
    }
  }

  ghost predicate Ascending(nodes: seq<SortedNode>) {
    forall i, j :: 0 <= i < j < |nodes| ==> nodes[i].key <= nodes[j].key
  }

  lemma AscendingWithout(s: seq<SortedNode>, k: nat, e: seq<SortedNode>)
    requires Ascending(s) && k < |s| && |e| == |s| - 1
    requires forall i {:trigger e[i]} :: 0 <= i < |e| ==> e[i] == s[if i < k then i else i + 1]
    ensures Ascending(e)
  {
  }

  lemma AscendingInserted(s: seq<SortedNode>, k: nat, x: SortedNode, e: seq<SortedNode>)
    requires Ascending(s) && k <= |s| && |e| == |s| + 1 && e[k] == x
    requires (k > 0 ==> s[k - 1].key <= x.key) && (k < |s| ==> x.key <= s[k].key)
    requires forall i {:trigger e[i]} :: 0 <= i < |e| && i != k ==> e[i] == s[if i < k then i else i - 1]
    ensures Ascending(e)
  {
  }

  class IntrusiveSortedList {
    var head: SortedNode?
    ghost var nodes: seq<SortedNode>

    ghost predicate Valid()
      reads this, nodes
    {
      && Distinct(nodes) && Ascending(nodes)
      && head == (if nodes == [] then null else nodes[0])
      && forall i {:trigger nodes[i].sibling} :: 0 <= i < |nodes| ==>
        nodes[i].sibling == if i + 1 < |nodes| then nodes[i + 1] else null
    }

    constructor ()
      ensures Valid() && nodes == []
    {
      head, nodes := null, [];
    }

    method Size() returns (sz: nat)
      requires Valid()
      ensures sz == |nodes|
    {
      sz := 0;
      var node := head;
      while node != null
        invariant sz <= |nodes| && node == if sz < |nodes| then nodes[sz] else null
        decreases |nodes| - sz
      {
        sz := sz + 1;
        node := node.sibling;
      }
    }

    /** Inserts an unlinked node before the first one that is not smaller. */
    method Add(newNode: SortedNode)
      requires Valid() && newNode !in nodes && newNode.sibling == null
      modifies this, nodes, newNode
      ensures Valid()
      ensures var k := Place(old(nodes), (x: SortedNode) => x.key, newNode.key);
        nodes == old(nodes)[..k] + [newNode] + old(nodes)[k..]
    {
      if head == null || newNode.key <= head.key {
        LinkFirst(newNode);
        return;
      }
      var node := head;
      ghost var k := 0;
      while node != null && node.sibling != null
        invariant k < |nodes| && node == nodes[k] && node.key < newNode.key
        invariant nodes == old(nodes) && Valid() && newNode.sibling == null && newNode !in nodes
        decreases |nodes| - k
      {
        if newNode.key <= node.sibling.key {
          PlaceIs(nodes, (x: SortedNode) => x.key, newNode.key, k + 1);
          LinkAfter(node, newNode, k);
          return;
        }
        node := node.sibling;
        k := k + 1;
      }
      PlaceIs(nodes, (x: SortedNode) => x.key, newNode.key, k + 1);
      LinkAfter(node, newNode, k);
    }

    /** Puts a node before all others. */
    method LinkFirst(newNode: SortedNode)
      requires Valid() && newNode !in nodes && newNode.sibling == null
      requires head != null ==> newNode.key <= head.key
      modifies this, newNode
      ensures Valid() && nodes == [newNode] + old(nodes)
    {
      if head != null {
        newNode.sibling := head;
      }
      head, nodes := newNode, [newNode] + nodes;
    }

    /** Puts a node after position k. */
    method LinkAfter(node: SortedNode, newNode: SortedNode, ghost k: nat)
      requires Valid() && newNode !in nodes && newNode.sibling == null && k < |nodes| && node == nodes[k]
      requires node.key < newNode.key && (k + 1 < |nodes| ==> newNode.key <= nodes[k + 1].key)
      modifies this, nodes, newNode
      ensures Valid() && nodes == old(nodes)[..k + 1] + [newNode] + old(nodes)[k + 1..]
    {
      hide Distinct, Ascending;
      ghost var was := nodes;
      ghost var e := InsertedAt(nodes, k + 1, newNode);
      AscendingInserted(was, k + 1, newNode, e);
      OnlyThere(was, k);
      newNode.sibling := node.sibling;
      node.sibling := newNode;
      forall i | 0 <= i < |e| && i != k && i != k + 1 ensures e[i].sibling == if i + 1 < |e| then e[i + 1] else null {
        var j := if i < k then i else i - 1;
        assert e[i] == was[j];
        assert old(was[j].sibling == if j + 1 < |was| then was[j + 1] else null);
      }
      nodes := e;
    }

    /** Removes exactly this node and clears its link. */
    method Remove(removeNode: SortedNode?) returns (removed: bool)
      requires Valid()
      modifies this, nodes
      ensures Valid()
      ensures removed <==> removeNode != null && removeNode in old(nodes)
      ensures nodes == if removed then Without(old(nodes), removeNode as SortedNode) else old(nodes)
      ensures removed ==> removeNode.sibling == null
    {
      if removeNode == null {
        return false;
      }
      hide Without, Distinct, Ascending;
      if removeNode == head {
        RemoveHead(removeNode);
        return true;
      }
      var node;
      ghost var k;
      node, k := FindBefore(removeNode);
      if node == null {
        return false;
      }
      Unlink(node, removeNode, k);
      return true;
    }

    method RemoveHead(removeNode: SortedNode)
      requires Valid() && removeNode == head
      modifies this, nodes
      ensures Valid() && nodes == Without(old(nodes), removeNode) && removeNode.sibling == null
      ensures removeNode in old(nodes)
    {
      hide Without, Distinct, Ascending;
      ghost var was := nodes;
      ghost var e := WithoutIs(nodes, 0);
      OnlyThere(was, 0);
      AscendingWithout(was, 0, e);
      head := head.sibling;
      removeNode.sibling := null;
      forall i | 0 <= i < |e| ensures e[i].sibling == if i + 1 < |e| then e[i + 1] else null {
        var j := i + 1;
        assert e[i] == was[j];
        assert old(was[j].sibling == if j + 1 < |was| then was[j + 1] else null);
      }
      nodes := e;
    }

    /** The node whose sibling is to be removed. */
    method FindBefore(removeNode: SortedNode) returns (node: SortedNode?, ghost k: nat)
      requires Valid() && removeNode != head
      ensures node == null ==> removeNode !in nodes
      ensures node != null ==> k + 1 < |nodes| && node == nodes[k] && removeNode == nodes[k + 1] && removeNode in nodes
    {
      node := head;
      k := 0;
      while node != null
        invariant k <= |nodes| && node == if k < |nodes| then nodes[k] else null
        invariant forall i :: 0 <= i <= k && i < |nodes| ==> nodes[i] != removeNode
        decreases |nodes| - k
      {
        if node.sibling == removeNode {
          return;
        }
        node := node.sibling;
        k := k + 1;
      }
    }

    method Unlink(node: SortedNode, removeNode: SortedNode, ghost k: nat)
      requires Valid() && k + 1 < |nodes| && node == nodes[k] && removeNode == nodes[k + 1]
      modifies this, nodes
      ensures Valid() && nodes == Without(old(nodes), removeNode) && removeNode.sibling == null
    {
      hide Without, Distinct, Ascending;
      ghost var was := nodes;
      ghost var e := WithoutIs(nodes, k + 1);
      OnlyThere(was, k);
      OnlyThere(was, k + 1);
      AscendingWithout(was, k + 1, e);
      node.sibling := node.sibling.sibling;
      removeNode.sibling := null;
      forall i | 0 <= i < |e| ensures e[i].sibling == if i + 1 < |e| then e[i + 1] else null {
        if i < k {
          assert old(was[i].sibling) == was[i + 1];
        } else if i > k {
          assert old(was[i + 1].sibling) == if i + 2 < |was| then was[i + 2] else null;
        } else {
          assert old(removeNode.sibling) == if k + 2 < |was| then was[k + 2] else null;
        }
      }
      nodes := e;
    }
  }
}
