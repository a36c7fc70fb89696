/** The unrolled linked queue: nodes of a fixed number of entries, all full but the last. */
module UnrolledQueue {
  import opened Wrappers

  datatype QueueError = IndexOutOfBounds | IterOutOfRange

  class Node<T(0)> {
    var next: Node?<T>
    var currentEntriesAmount: nat
    const contents: array<T>

    constructor (amount: nat)
      ensures next == null && currentEntriesAmount == 0 && contents.Length == amount && fresh(contents)
    {
      next, currentEntriesAmount := null, 0;
      contents := new T[amount];
    }
  }

  // Place e of node j holds the entry pushed at this position.
  function At(amount: nat, j: nat, e: nat): nat
  {
    j * amount + e
  }

  lemma Position(amount: nat, i: nat)
    requires amount > 0
    ensures At(amount, i / amount, i % amount) == i
  {
  }

  // Nodes follow one another without a gap.
  lemma Follows(amount: nat, j: nat, k: nat)
    requires j < k
    ensures At(amount, j, amount) <= At(amount, k, 0)
    ensures j + 1 == k ==> At(amount, j, amount) == At(amount, k, 0)
  {
    assert k * amount - j * amount == (k - j) * amount;
    assert (k - j) * amount == amount + (k - j - 1) * amount;
  }

  lemma AtNext(amount: nat, j: nat, e: nat)
    ensures At(amount, j, e + 1) == At(amount, j, e) + 1
  {
  }

  lemma AtFirst(amount: nat)
    ensures At(amount, 0, 0) == 0
  {
  }

  // An index below the size falls on a node of the queue, on the last one within its entries.
  lemma Located(amount: nat, last: nat, count: nat, i: nat)
    requires amount > 0 && count <= amount && i < At(amount, last, count)
    ensures i / amount <= last && i % amount < amount && (i / amount == last ==> i % amount < count)
  {
    if i / amount > last {
      Follows(amount, last, i / amount);
      Position(amount, i);
    } else if i / amount == last {
      Position(amount, i);
    }
  }

  // One more place at the end, holding the entry if there is one.
  ghost predicate Pushed<T>(before: seq<T>, after: seq<T>, entry: Option<T>)
  {
    |after| == |before| + 1 && before <= after && (entry.Some? ==> after[|before|] == entry.value)
  }

  class Queue<T(0)> {
    var size: nat
    const nodeEntriesAmount: nat
    var firstNode: Node?<T>
    var lastNode: Node?<T>
    ghost var nodes: seq<Node<T>>
    ghost var elements: seq<T>
    // the nodes and their arrays
    ghost var repr: set<object>

    // The chain: firstNode and the next links run through `nodes`, and no two share their entries.
    ghost predicate Chained()
      reads `firstNode, `lastNode, `nodes, nodes`next
    {
      && nodeEntriesAmount > 0
      && (firstNode == null <==> nodes == []) && (lastNode == null <==> nodes == [])
      && (nodes != [] ==> firstNode == nodes[0] && lastNode == nodes[|nodes| - 1])
      && (forall j :: 0 <= j < |nodes| ==>
            && nodes[j].contents.Length == nodeEntriesAmount
            && nodes[j].next == if j + 1 < |nodes| then nodes[j + 1] else null)
      && (forall j, k :: 0 <= j < k < |nodes| ==> nodes[j] != nodes[k] && nodes[j].contents != nodes[k].contents)
    }

    // Every node but the last is full, and the last is not empty.
    ghost predicate Filled()
      reads `size, `nodes, `elements, nodes`currentEntriesAmount
    {
      && size == |elements|
      && (nodes == [] ==> size == 0)
      && (forall j :: 0 <= j < |nodes| ==>
            && 0 < nodes[j].currentEntriesAmount <= nodeEntriesAmount
            && (j + 1 < |nodes| ==> nodes[j].currentEntriesAmount == nodeEntriesAmount))
      && (nodes != [] ==> size == At(nodeEntriesAmount, |nodes| - 1, nodes[|nodes| - 1].currentEntriesAmount))
    }

    ghost predicate HoldsAt(j: nat, e: nat)
      requires j < |nodes|
      reads `nodes, `elements, nodes[j].contents
    {
      && e < nodes[j].contents.Length && At(nodeEntriesAmount, j, e) < |elements|
      && nodes[j].contents[e] == elements[At(nodeEntriesAmount, j, e)]
    }

    ghost predicate Valid()
      reads this, repr
    {
      && (forall j :: 0 <= j < |nodes| ==> nodes[j] in repr && nodes[j].contents in repr)
      && Chained() && Filled()
      && forall j, e :: 0 <= j < |nodes| && 0 <= e < nodes[j].currentEntriesAmount ==> HoldsAt(j, e)
    }

    constructor (amount: nat)
      requires amount > 0
      ensures Valid() && elements == [] && repr == {} && nodeEntriesAmount == amount
    {
      size, nodeEntriesAmount, firstNode, lastNode := 0, amount, null, null;
      nodes, elements, repr := [], [], {};
    }

    // The only objects a push changes besides the queue.
    ghost function Tail(): set<object>
      reads this
    {
      if lastNode == null then {} else {lastNode, lastNode.contents}
    }

    // insert_into_node: the entry is copied if there is one; otherwise its place is only taken.
    method InsertIntoNode(node: Node<T>, entry: Option<T>) returns (index: nat)
      requires node.currentEntriesAmount < node.contents.Length
      modifies node`currentEntriesAmount, node.contents
      ensures index == old(node.currentEntriesAmount) && node.currentEntriesAmount == index + 1
      ensures forall e :: 0 <= e < node.contents.Length && e != index ==> node.contents[e] == old(node.contents[e])
      ensures entry.Some? ==> node.contents[index] == entry.value
    {
      index := node.currentEntriesAmount;
      if entry.Some? {
        node.contents[index] := entry.value;
      }
      node.currentEntriesAmount := index + 1;
    }

    method InsertIntoLast(entry: Option<T>) returns (index: nat)
      requires Valid() && lastNode != null && lastNode.currentEntriesAmount < nodeEntriesAmount
      modifies `size, `elements, lastNode`currentEntriesAmount, lastNode.contents
      ensures Valid() && Pushed(old(elements), elements, entry)
      ensures index < lastNode.contents.Length && lastNode.contents[index] == elements[|elements| - 1]
    {
      hide At;
      ghost var last := |nodes| - 1;
      size := size + 1;
      index := InsertIntoNode(lastNode, entry);
      elements := elements + [lastNode.contents[index]];
      AtNext(nodeEntriesAmount, last, index);
      assert Chained() && Filled();
      hide Queue.Filled;
      forall j, e | 0 <= j < |nodes| && 0 <= e < nodes[j].currentEntriesAmount
        ensures HoldsAt(j, e)
      {
        if j != last || e != index {
          assert old(HoldsAt(j, e));
        }
      }
    }

    // A new node with its first entry.
    method NodeWith(entry: Option<T>) returns (node: Node<T>)
      requires nodeEntriesAmount > 0
      ensures fresh(node) && fresh(node.contents) && node.contents.Length == nodeEntriesAmount
      ensures node.next == null && node.currentEntriesAmount == 1 && (entry.Some? ==> node.contents[0] == entry.value)
    {
      node := new Node(nodeEntriesAmount);
      var index := InsertIntoNode(node, entry);
    }

    method InsertFirst(entry: Option<T>) returns (node: Node<T>)
      requires Valid() && lastNode == null
      modifies this
      ensures Valid() && Pushed(old(elements), elements, entry)
      ensures nodes == [node] && fresh(repr)
      ensures 0 < node.contents.Length && node.contents[0] == elements[|elements| - 1]
    {
      hide At;
      AtFirst(nodeEntriesAmount);
      AtNext(nodeEntriesAmount, 0, 0);
      size := size + 1;
      node := NodeWith(entry);
      firstNode, lastNode := node, node;
      nodes, elements, repr := [node], [node.contents[0]], {node, node.contents};
    }

    method InsertIntoNew(entry: Option<T>) returns (node: Node<T>)
      requires Valid() && lastNode != null && lastNode.currentEntriesAmount == nodeEntriesAmount
      modifies this, lastNode
      ensures Valid() && Pushed(old(elements), elements, entry)
      ensures nodes == old(nodes) + [node] && fresh(repr - old(repr))
      ensures 0 < node.contents.Length && node.contents[0] == elements[|elements| - 1]
    {
      hide At;
      size := size + 1;
      node := NodeWith(entry);
      Follows(nodeEntriesAmount, |nodes| - 1, |nodes|);
      AtNext(nodeEntriesAmount, |nodes|, 0);
      Link(node);
      hide Queue.Chained;
      elements := elements + [node.contents[0]];
      assert Filled();
      hide Queue.Filled;
      forall j, e | 0 <= j < |nodes| && 0 <= e < nodes[j].currentEntriesAmount
        ensures HoldsAt(j, e)
      {
        if j < |nodes| - 1 {
          assert old(HoldsAt(j, e));
        }
      }
    }

    // The node goes behind the last one.
    method Link(node: Node<T>)
      requires Chained() && lastNode != null && node.next == null && node.contents.Length == nodeEntriesAmount
      requires forall j :: 0 <= j < |nodes| ==> nodes[j] != node && nodes[j].contents != node.contents
      modifies `lastNode, `nodes, `repr, lastNode`next
      ensures Chained() && lastNode == node && nodes == old(nodes) + [node]
      ensures repr == old(repr) + {node, node.contents}
    {
      lastNode.next := node;
      lastNode := node;
      nodes, repr := nodes + [node], repr + {node, node.contents};
    }

    // The node and index stand for the pointer to the place of the entry.
    method PushBack(entry: Option<T>) returns (node: Node<T>, index: nat)
      requires Valid()
      modifies this, Tail()
      ensures Valid() && Pushed(old(elements), elements, entry)
      ensures old(nodes) <= nodes && fresh(repr - old(repr))
      ensures node in nodes && index < node.contents.Length && node.contents[index] == elements[|elements| - 1]
    {
      if lastNode == null {
        node := InsertFirst(entry);
        index := 0;
      } else if lastNode.currentEntriesAmount < nodeEntriesAmount {
        node := lastNode;
        index := InsertIntoLast(entry);
      } else {
        node := InsertIntoNew(entry);
        index := 0;
      }
    }

    // The entry pushed at this index, found by division and remainder.
    method Get(index: nat) returns (r: Result<T, QueueError>)
      requires Valid()
      ensures r == if index < |elements| then Ok(elements[index]) else Err(IndexOutOfBounds)
    {
      hide At;
      if size <= index {
        return Err(IndexOutOfBounds);
      }
      var nodeIndex, entryIndex := index / nodeEntriesAmount, index % nodeEntriesAmount;
      Position(nodeEntriesAmount, index);
      Located(nodeEntriesAmount, |nodes| - 1, nodes[|nodes| - 1].currentEntriesAmount, index);
      assert HoldsAt(nodeIndex, entryIndex);
      var node, i := firstNode, 0;
      while i < nodeIndex
        invariant 0 <= i <= nodeIndex < |nodes| && node == nodes[i]
      {
        node := node.next;
        i := i + 1;
      }
      r := Ok(node.contents[entryIndex]);
    }

    // Every entry is handed to the destructor once, in push order.
    method Clear() returns (destroyed: seq<T>)
      requires Valid()
      modifies this
      ensures Valid() && elements == [] && repr == {} && destroyed == old(elements)
    {
      destroyed := DestroyAll();
      size, firstNode, lastNode := 0, null, null;
      nodes, elements, repr := [], [], {};
    }

    method DestroyAll() returns (destroyed: seq<T>)
      requires Valid()
      ensures destroyed == elements
    {
      hide Queue.Valid, At;
      FirstOf();
      AtFirst(nodeEntriesAmount);
      destroyed := [];
      var node := firstNode;
      ghost var j := 0;
      while node != null
        invariant 0 <= j <= |nodes| && node == (if j < |nodes| then nodes[j] else null)
        invariant Before(j) <= |elements| && destroyed == elements[..Before(j)]
        decreases |nodes| - j
      {
        NodeEnds(j);
        NextOf(j);
        var nextNode := node.next;
        var part := DestroyEntries(node, j);
        destroyed := destroyed + part;
        node := nextNode;
        j := j + 1;
      }
      assert elements[..|elements|] == elements;
    }

    // The entries of node j, in their order.
    method DestroyEntries(node: Node<T>, ghost j: nat) returns (part: seq<T>)
      requires Valid() && j < |nodes| && node == nodes[j]
      ensures Before(j) <= Before(j + 1) <= |elements| && part == elements[Before(j)..Before(j + 1)]
    {
      hide Queue.Valid, At;
      NodeEnds(j);
      part := [];
      var index := 0;
      while index < node.currentEntriesAmount
        invariant 0 <= index <= node.currentEntriesAmount
        invariant Before(j) <= At(nodeEntriesAmount, j, index) <= |elements|
        invariant part == elements[Before(j)..At(nodeEntriesAmount, j, index)]
      {
        EntryAt(j, index);
        AtNext(nodeEntriesAmount, j, index);
        part := part + [node.contents[index]];
        index := index + 1;
      }
    }

    // The number of entries before node j.
    ghost function Before(j: nat): nat
      requires j <= |nodes|
      reads `nodes, `elements
    {
      if j < |nodes| then At(nodeEntriesAmount, j, 0) else |elements|
    }

    lemma NextOf(j: nat)
      requires Valid() && j < |nodes|
      ensures nodes[j].next == (if j + 1 < |nodes| then nodes[j + 1] else null)
      ensures 0 < nodes[j].currentEntriesAmount <= nodeEntriesAmount
    {
    }

    lemma FirstOf()
      requires Valid()
      ensures firstNode == if nodes == [] then null else nodes[0]
      ensures nodes == [] <==> elements == []
    {
    }

    lemma EntryAt(j: nat, e: nat)
      requires Valid() && j < |nodes| && e < nodes[j].currentEntriesAmount
      ensures HoldsAt(j, e)
    {
    }

    lemma NodeEnds(j: nat)
      requires Valid() && j < |nodes|
      ensures Before(j) == At(nodeEntriesAmount, j, 0)
      ensures Before(j + 1) == At(nodeEntriesAmount, j, nodes[j].currentEntriesAmount)
      ensures Before(j) <= Before(j + 1) <= |elements|
    {
      if j + 1 < |nodes| {
        Follows(nodeEntriesAmount, j, j + 1);
        if j + 1 < |nodes| - 1 {
          Follows(nodeEntriesAmount, j + 1, |nodes| - 1);
        }
      }
    }
  }

  // The iterator; it starts on the queue as it is and may go on while entries are being pushed.
  class QueueIterator<T(0)> {
    var currentNode: Node?<T>
    var nextIndex: nat
    ghost const queue: Queue<T>
    ghost var node: nat

    // The iterator rests in node number `node`; over an empty queue it has no node, and stays so.
    ghost predicate Rests()
      reads this, queue
    {
      currentNode != null ==> node < |queue.nodes| && currentNode == queue.nodes[node]
    }

    ghost predicate Valid()
      reads this, queue, queue.repr
    {
      && this !in queue.repr && queue.Valid() && Rests()
      && (currentNode != null ==> nextIndex <= currentNode.currentEntriesAmount)
    }

    // How many entries it has yielded.
    ghost function Yielded(): nat
      reads this
    {
      if currentNode == null then 0 else At(queue.nodeEntriesAmount, node, nextIndex)
    }

    constructor (queue: Queue<T>)
      requires queue.Valid()
      ensures Valid() && this.queue == queue && Yielded() == 0 && (currentNode == null <==> queue.elements == [])
    {
      hide Queue.Valid, At;
      queue.FirstOf();
      AtFirst(queue.nodeEntriesAmount);
      this.queue := queue;
      nextIndex, node := 0, 0;
      currentNode := queue.firstNode;
    }

    predicate HasNext()
      reads this, currentNode
    {
      currentNode != null && (nextIndex < currentNode.currentEntriesAmount || currentNode.next != null)
    }

    // There is a next entry exactly when fewer were yielded than were pushed.
    lemma HasNextExactly()
      requires Valid()
      ensures HasNext() <==> currentNode != null && Yielded() < |queue.elements|
    {
      hide At;
      if currentNode != null {
        queue.NextOf(node);
        queue.NodeEnds(node);
        AtOrder(queue.nodeEntriesAmount, node, nextIndex, currentNode.currentEntriesAmount);
        if node + 1 < |queue.nodes| {
          queue.NodeEnds(node + 1);
          AtOrder(queue.nodeEntriesAmount, node + 1, 0, queue.nodes[node + 1].currentEntriesAmount);
        }
      }
    }

    // The entries come in push order, each once.
    method Next() returns (r: Result<T, QueueError>)
      requires Valid()
      modifies `currentNode, `nextIndex, `node
      ensures Valid()
      ensures if old(currentNode) != null && old(Yielded()) < |queue.elements|
              then r == Ok(queue.elements[old(Yielded())]) && Yielded() == old(Yielded()) + 1
              else r == Err(IterOutOfRange) && Yielded() == old(Yielded())
    {
      hide At, Queue.Valid;
      HasNextExactly();
      if !HasNext() {
        return Err(IterOutOfRange);
      }
      if nextIndex >= currentNode.currentEntriesAmount {
        queue.NodeEnds(node);
        queue.NextOf(node);
        currentNode := currentNode.next;
        node := node + 1;
        nextIndex := 0;
        queue.NextOf(node);
      }
      queue.EntryAt(node, nextIndex);
      AtNext(queue.nodeEntriesAmount, node, nextIndex);
      r := Ok(currentNode.contents[nextIndex]);
      nextIndex := nextIndex + 1;
    }
  }

  lemma AtOrder(amount: nat, j: nat, e: nat, f: nat)
    ensures At(amount, j, e) < At(amount, j, f) <==> e < f
  {
  }

  // Reading a queue to its end yields its entries in push order, and then it stops.
  method Drain<T(0)>(queue: Queue<T>) returns (yielded: seq<T>)
    requires queue.Valid()
    ensures yielded == queue.elements
  {
    hide Queue.Valid, At;
    var it := new QueueIterator(queue);
    yielded := [];
    while it.HasNext()
      invariant it.Valid() && fresh(it) && it.queue == queue && it.Yielded() == |yielded| <= |queue.elements|
      invariant yielded == queue.elements[..|yielded|]
      invariant it.currentNode == null <==> queue.elements == []
      decreases |queue.elements| - |yielded|
    {
      it.HasNextExactly();
      var r := it.Next();
      yielded := yielded + [r.value];
    }
    it.HasNextExactly();
  }
}
