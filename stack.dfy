/** The heap objects of src/stack.c: nodes, the allocator that hands them out
    and takes them back, and the list that owns a chain of them. */
module Stack {
  import opened StackSpec

  /** `struct node_s`: one heap link. `hits` is set to 0 and never read. */
  class Node {
    var next: Node?
    var item: int32
    var hits: int32
  }

  /** The allocator behind `malloc` and `free`. `Live` holds the nodes that
      have been allocated and not yet freed. */
  class Heap {
    ghost var Live: set<Node>

    constructor ()
      ensures Live == {}
    {
      Live := {};
    }
  }

  /** `node_new`: a freshly allocated node linked to `next`, carrying `item`,
      with no hits. Allocation always succeeds here. */
  method NodeNew(heap: Heap, next: Node?, item: int32) returns (np: Node)
    modifies heap
    ensures fresh(np) && np !in old(heap.Live)
    ensures np.next == next && np.item == item && np.hits == 0
    ensures heap.Live == old(heap.Live) + {np}
  {
    np := new Node;
    np.next := next;
    np.item := item;
    np.hits := 0;
    heap.Live := heap.Live + {np};
  }

  /** `node_drop`: frees `node` and hands back the successor it had; on null
      it frees nothing and returns null. Freeing a node that is not live would
      be a double free, so callers may only pass live nodes. */
  method NodeDrop(heap: Heap, node: Node?) returns (np: Node?)
    requires node != null ==> node in heap.Live
    modifies heap
    ensures node == null ==> np == null && heap.Live == old(heap.Live)
    ensures node != null ==> np == node.next && heap.Live == old(heap.Live) - {node}
  {
    np := null;
    if node != null {
      np := node.next;
      heap.Live := heap.Live - {node};
    }
  }

  /** `struct list_s`: the head of a chain of nodes and a cached count. */
  class List {
    var head: Node?
    var length: nat
    /** The payloads from head to tail. */
    ghost var Contents: seq<int32>
    /** The nodes from head to tail. */
    ghost var Nodes: seq<Node>
    /** The nodes this list owns. */
    ghost var Repr: set<Node>

    /** The chain starting at `head` runs through `Nodes`, each node once,
        ends in null, carries `Contents`, and the cached count is at least its
        length. Every list a program can build satisfies this. */
    ghost predicate Linked()
      reads this, Repr
    {
      |Nodes| == |Contents| <= length &&
      Repr == (set n | n in Nodes) &&
      (forall i, j :: 0 <= i < j < |Nodes| ==> Nodes[i] != Nodes[j]) &&
      head == (if Nodes == [] then null else Nodes[0]) &&
      (forall k :: 0 <= k < |Nodes| ==> Nodes[k].item == Contents[k]) &&
      (forall k :: 0 <= k < |Nodes| - 1 ==> Nodes[k].next == Nodes[k + 1]) &&
      (Nodes != [] ==> Nodes[|Nodes| - 1].next == null)
    }

    /** Linked, and the cached count is exactly the number of nodes. */
    ghost predicate Valid()
      reads this, Repr
    {
      Linked() && length == |Contents|
    }

    /** The list as a value. */
    ghost function Abs(): (a: Abstract)
      reads this
    {
      Abstract(Contents, length)
    }

    /** `list_new`: no head, a zero count. */
    constructor ()
      ensures Valid() && Abs() == Empty()
      ensures head == null && length == 0 && Nodes == [] && Repr == {}
    {
      head := null;
      length := 0;
      Contents := [];
      Nodes := [];
      Repr := {};
    }

    /** `list_len`: the cached count, read without walking the chain. */
    method Len() returns (n: nat)
      ensures n == length
      ensures Valid() ==> n == |Contents|
    {
      n := length;
    }

    /** `list_push`: a fresh node carrying `item`, linked to the old head,
        becomes the head, and the count goes up by one. */
    method Push(heap: Heap, item: int32) returns (self: List)
      requires Linked() && Repr <= heap.Live
      modifies this, heap
      ensures self == this && Linked() && Repr <= heap.Live
      ensures Abs() == Pushed(old(Abs()), item)
      ensures fresh(head) && head.item == item && head.next == old(head)
      ensures Nodes == [head] + old(Nodes)
      ensures heap.Live == old(heap.Live) + {head}
      ensures Valid() <==> old(Valid())
    {
      var newNode := NodeNew(heap, head, item);
      head := newNode;
      length := length + 1;
      Contents := [item] + Contents;
      Nodes := [newNode] + Nodes;
      Repr := Repr + {newNode};
      self := this;
    }

    /** `list_pop`: on a non-empty chain, frees the head, makes its successor
        the head, decrements the count and returns the old head's payload; on
        an empty chain, changes nothing and returns `NONE`. */
    method Pop(heap: Heap) returns (x: int32)
      requires Linked() && Repr <= heap.Live
      modifies this, heap
      ensures Linked() && Repr <= heap.Live
      ensures x == InBand(PopResult(old(Abs())))
      ensures Abs() == Popped(old(Abs()))
      ensures old(head) == null ==> x == NONE && head == null && heap.Live == old(heap.Live)
      ensures old(head) != null ==>
                x == old(head.item) && head == old(head.next) &&
                Nodes == old(Nodes)[1..] && heap.Live == old(heap.Live) - {old(head)}
      ensures Valid() <==> old(Valid())
    {
      if head != null {
        var rv := head.item;
        head := NodeDrop(heap, head);
        length := length - 1;
        Contents := Contents[1..];
        Nodes := Nodes[1..];
        Repr := set n | n in Nodes;
        return rv;
      }
      return NONE;
    }

    /** `list_drop`: walks the chain freeing every node and clears `head`.
        It leaves `length` as it was, so the list is Valid afterwards only if
        the count was already zero. */
    method Drop(heap: Heap) returns (self: List)
      requires Linked() && Repr <= heap.Live
      modifies this, heap
      ensures self == this && Linked() && Repr == {}
      ensures head == null && Nodes == []
      ensures Abs() == Dropped(old(Abs()))
      ensures heap.Live == old(heap.Live) - old(Repr)
      ensures Valid() <==> old(length) == 0
    {
      var np := head;
      ghost var i := 0;
      while np != null
        modifies heap
        invariant Linked()
        invariant 0 <= i <= |Nodes|
        invariant np == if i < |Nodes| then Nodes[i] else null
        invariant heap.Live == old(heap.Live) - (set n | n in Nodes[..i])
        decreases |Nodes| - i
      {
        assert Nodes[..i + 1] == Nodes[..i] + [Nodes[i]];
        np := NodeDrop(heap, np);
        i := i + 1;
      }
      assert Nodes[..i] == Nodes;
      head := null;
      Contents := [];
      Nodes := [];
      Repr := {};
      self := this;
    }

    /** `list_print`: walks the chain from head to tail, changing nothing.
        `visited` is the (position, payload) pairs it prints, positions
        counted from 1; `seen` is the nodes it steps on, each once, all of
        them live in `heap`. */
    method Print(ghost heap: Heap) returns (self: List, visited: seq<(nat, int32)>, ghost seen: seq<Node>)
      requires Linked() && Repr <= heap.Live
      ensures self == this
      ensures visited == Listing(Contents, 1)
      ensures seen == Nodes && (set n | n in seen) == Repr
      ensures forall k :: 0 <= k < |seen| ==> seen[k] in heap.Live
      ensures forall i, j :: 0 <= i < j < |seen| ==> seen[i] != seen[j]
    {
      var np := head;
      var i: nat := 1;
      visited := [];
      seen := [];
      while np != null
        invariant Linked()
        invariant 1 <= i <= |Nodes| + 1
        invariant np == if i <= |Nodes| then Nodes[i - 1] else null
        invariant |visited| == i - 1
        invariant forall k :: 0 <= k < i - 1 ==> visited[k] == (k + 1, Contents[k])
        invariant seen == Nodes[..i - 1]
        decreases |Nodes| + 1 - i
      {
        visited := visited + [(i, np.item)];
        seen := seen + [np];
        np := np.next;
        i := i + 1;
      }
      assert seen == Nodes;
      self := this;
    }
  }
}
