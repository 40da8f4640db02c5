/** Clients of the list in module Stack: the call sequence of `main` in
    src/stack.c, and the two quirks of the in-band sentinel and of drop,
    exhibited on real lists. */
module Demo {
  import opened StackSpec
  import opened Stack

  /** `main`: push 99, 88, 77, 66 (printing the list), pop until `NONE` comes
      back, then drop, push 5 and 4 and print again. `main` reads the count
      three times: after creation, after the first push and after the fourth
      (0, 1, 4). This model reads it twice more, after the pop loop (0) and at
      the end (2); those are the last two entries of `lengths`. `popped` are
      the values the pop loop receives. `main` prints eight listings; `first`
      is the one printed after the fourth push and `last` the one printed at
      the very end. The other six (the repeat print of the full list, the
      four prints inside the pop loop, the print right after drop) are left
      out with the rest of the console output. */
  method Scenario()
    returns (lengths: seq<nat>, popped: seq<int32>,
             first: seq<(nat, int32)>, last: seq<(nat, int32)>)
    ensures lengths == [0, 1, 4, 0, 2]
    ensures popped == [66, 77, 88, 99]
    ensures first == [(1, 66), (2, 77), (3, 88), (4, 99)]
    ensures last == [(1, 4), (2, 5)]
  {
    var heap := new Heap();
    var list, built;
    list, built := PushFour(heap);
    var self;
    ghost var seen;
    self, first, seen := list.Print(heap);
    popped := PopUntilNone(list, heap);
    var n := list.Len();
    var m;
    last, m := DropAndRefill(list, heap);
    lengths := built + [n, m];
  }

  /** The first part of `main`: a new list and pushes of 99, 88, 77 and 66,
      with the counts read along the way. */
  method PushFour(heap: Heap) returns (list: List, lengths: seq<nat>)
    modifies heap
    ensures fresh(list) && list.Valid() && list.Repr <= heap.Live
    ensures list.Contents == [66, 77, 88, 99]
    ensures lengths == [0, 1, 4]
  {
    list := new List();
    var n := list.Len();
    lengths := [n];
    var self := list.Push(heap, 99);
    n := list.Len();
    lengths := lengths + [n];
    assert lengths == [0, 1];
    self := self.Push(heap, 88);
    assert list.Abs() == Abstract([88, 99], 2);
    self := self.Push(heap, 77);
    assert list.Abs() == Abstract([77, 88, 99], 3);
    self := self.Push(heap, 66);
    assert list.Abs() == Abstract([66, 77, 88, 99], 4);
    n := list.Len();
    lengths := lengths + [n];
  }

  /** The last line of `main`: drop, push 5, push 4, print, on a list the pop
      loop has emptied. `n` is the count at the end. */
  method DropAndRefill(list: List, heap: Heap) returns (listing: seq<(nat, int32)>, n: nat)
    requires list.Valid() && list.Repr <= heap.Live && list.Contents == []
    modifies list, heap
    ensures list.Valid() && list.Repr <= heap.Live
    ensures list.Contents == [4, 5]
    ensures listing == [(1, 4), (2, 5)] && n == 2
  {
    var self := list.Drop(heap);
    self := self.Push(heap, 5);
    self := self.Push(heap, 4);
    ghost var seen;
    self, listing, seen := self.Print(heap);
    n := list.Len();
  }

  /** The pop loop of `main`: pops until `NONE` comes back. With no stored
      `NONE`, that happens exactly when the list is empty, so every payload is
      received, head first. */
  method PopUntilNone(list: List, heap: Heap) returns (popped: seq<int32>)
    requires list.Valid() && list.Repr <= heap.Live
    requires forall k :: 0 <= k < |list.Contents| ==> list.Contents[k] != NONE
    modifies list, heap
    ensures popped == old(list.Contents)
    ensures list.Valid() && list.Repr <= heap.Live && list.Contents == []
  {
    popped := [];
    var x := list.Pop(heap);
    while x != NONE
      invariant list.Valid() && list.Repr <= heap.Live
      invariant forall k :: 0 <= k < |list.Contents| ==> list.Contents[k] != NONE
      invariant x == NONE ==> list.Contents == []
      invariant (if x == NONE then popped else popped + [x]) + list.Contents == old(list.Contents)
      decreases |list.Contents| + (if x == NONE then 0 else 1)
    {
      popped := popped + [x];
      x := list.Pop(heap);
    }
  }

  /** A pop on an empty list and a pop of a stored `INT32_MAX` both return
      `NONE`, although only the second had a payload; that pop leaves the
      stored list with a count of 0. */
  method SentinelCollision() returns (fromEmpty: int32, fromStored: int32, storedLeft: nat)
    ensures fromEmpty == NONE && fromStored == NONE
    ensures storedLeft == 0
  {
    var heap := new Heap();
    var empty := new List();
    fromEmpty := empty.Pop(heap);
    var stored := new List();
    var self := stored.Push(heap, NONE);
    fromStored := stored.Pop(heap);
    storedLeft := stored.Len();
  }

  /** Drop does not reset the count: after one push and a drop the chain is
      empty, yet `list_len` still says 1, and a pop then returns `NONE`. */
  method DropKeepsCount() returns (n: nat, x: int32)
    ensures n == 1 && x == NONE
  {
    var heap := new Heap();
    var list := new List();
    var self := list.Push(heap, 7);
    self := list.Drop(heap);
    n := list.Len();
    x := list.Pop(heap);
  }

  /** Push followed by pop hands back the pushed payload, even `NONE`, and
      leaves the list, its count, its head and the live nodes as they were. */
  method PushThenPop(list: List, heap: Heap, item: int32) returns (x: int32)
    requires list.Linked() && list.Repr <= heap.Live
    modifies list, heap
    ensures x == item
    ensures list.Linked() && list.Abs() == old(list.Abs())
    ensures list.head == old(list.head) && list.Nodes == old(list.Nodes)
    ensures heap.Live == old(heap.Live)
  {
    var self := list.Push(heap, item);
    x := list.Pop(heap);
  }
}
