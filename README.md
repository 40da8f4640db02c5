# A linked-list stack, modelled and verified in Dafny

The system is a small LIFO stack in C (`src/stack.c`). A `List` holds a `head`
pointer to a singly linked chain of heap nodes and a cached `length`. Each
`Node` carries an `int32_t` payload (`item`), a `next` pointer and an unused
`hits` counter. `node_new` allocates a node and `node_drop` frees one and
hands back its successor. On top of these:

- `list_new` makes an empty list.
- `list_push` prepends a node.
- `list_pop` unlinks and frees the head and returns its payload. On an empty
  list it returns the in-band value `NONE`, which is `INT32_MAX`.
- `list_len` reads the cached count.
- `list_drop` frees the whole chain.
- `list_print` walks the chain from head to tail.

The project has three modules:

- `StackSpec` (`stack_spec.dfy`) gives the value-level meaning of a list: the
  payloads from head to tail plus the cached count. It has one function per
  operation, and lemmas about whole call sequences: LIFO order, the counts,
  the ambiguity of `NONE`, and what drop leaves behind.
- `Stack` (`stack.dfy`) models the heap objects. It has a `Node` class, a
  `Heap` class, the methods `NodeNew` and `NodeDrop`, and a `List` class whose
  methods update `head` and `length` in place. The `Heap` class stands for
  `malloc`/`free`: its ghost set `Live` holds the nodes that were allocated and
  not yet freed. A `List` has three ghost fields. `Nodes` is the chain from
  head to tail, `Contents` is its payloads, and `Repr` is the set of its nodes.
  Two invariants tie these ghost fields to the real ones. `Linked()` says the
  chain runs through `Nodes`, visits each node once, ends in null, carries
  `Contents`, and has a cached count at least as large as its length.
  `Valid()` adds that the count is exact. Every method states its new state
  through the `StackSpec` functions (`Abs() == Pushed(old(Abs()), item)`),
  and says which nodes it allocates or frees.
- `Demo` (`demo.dfy`) holds clients. They replay the call sequence of `main`
  and show two quirks on real lists: the `NONE` collision, and the count left
  behind by drop.

Two behaviours of the interface matter to any caller. The model follows the
code in both:

- **Drop and the count.** This is the one place where the code and its
  comments disagree. `list_len` promises the "Number of nodes in the list"
  (src/stack.c:198). The code of `list_drop` (src/stack.c:136-148) frees
  every node and clears `head`, which arguably meets its own comment
  "Empties the list." (src/stack.c:131), but it never assigns `length`. So
  after a drop `list_len` still reports the count it had before the drop,
  which equals the number of nodes only if that count was exact, and
  `Valid()` holds afterwards only if the count was already 0. `List.Drop`
  states exactly this, and `StackSpec.StaleLengthAfterDrop` and
  `Demo.DropKeepsCount` show a case: one push and a drop leave a count of 1
  over an empty chain.
- **Pop's return value.** Here code and comment agree, and the ambiguity is
  in the interface itself. `list_pop` returns "Payload by value or NONE if
  list empty" (src/stack.c:155), and the code (src/stack.c:158-166) does
  exactly that, calling it in-band signalling (:165). But `NONE` is
  `INT32_MAX` (src/stack.c:17), which is also a payload a caller may push, so
  a caller cannot tell an empty list from a stored `INT32_MAX`. The model
  keeps both views. `StackSpec.PopResult` is the discriminated result (an
  `Option`), `StackSpec.InBand` maps it to the `int32_t` return value, and
  `List.Pop` returns that projection. `InBandAmbiguity`,
  `InBandLosesOnlyEmptiness`, `SentinelIndistinguishable` and
  `Demo.SentinelCollision` state what the projection loses.

Because a drop can leave the count too high, the operations on `List` require
only `Linked()`, which every reachable list satisfies. Each of them says how
`Valid()` is affected. `Linked()` includes `|Contents| <= length`, so a pop on
a non-empty chain never decrements a zero count.

## Model

The functions `StackSpec.Empty`, `StackSpec.Pushed`, `StackSpec.PopResult`,
`StackSpec.InBand` and `StackSpec.Dropped` have no rows of their own. They are
the value-level definitions of `list_new`, `list_push`, `list_pop` (its
discriminated result and its in-band return value) and `list_drop`, and the
contracts of the `List.constructor`, `List.Push`, `List.Pop` and `List.Drop`
rows are stated through them. The `StackSpec` lemmas below prove their
properties.

| member | source | states |
|---|---|---|
| Stack.NodeNew | src/stack.c:74-83 | the node is fresh and was not live before; its `next` and `item` are the arguments and `hits` is 0; exactly that node becomes live |
| Stack.NodeDrop | src/stack.c:112-126 | on null it returns null and frees nothing; otherwise it returns the node's `next` and exactly that node stops being live; it may only be given a live node |
| Stack.List.constructor | src/stack.c:91-103 | a new list has no head, a count of 0, no nodes and no contents, and is Valid |
| Stack.List.Len | src/stack.c:200-202 | returns the cached count, which on a Valid list is the number of payloads |
| Stack.List.Push | src/stack.c:177-191 | a fresh node holding `item`, whose `next` is the old head, becomes the head; contents become `[item] + old contents`; the count goes up by 1; the old nodes are kept; only the new node becomes live; Linked and Valid are preserved; it returns the list itself |
| Stack.List.Pop | src/stack.c:157-167 | on a non-empty chain it returns the old head's payload, makes the old head's `next` the new head, drops the first payload and node, decrements the count and frees only the old head; on an empty chain it returns `NONE` and changes nothing; the result is the in-band form of the discriminated pop result |
| Stack.List.Drop | src/stack.c:136-148 | frees exactly the nodes the list owned and leaves no head, no nodes and no contents; the count is unchanged, so the list is Valid afterwards exactly when the count was 0; it returns the list itself |
| Stack.List.Print | src/stack.c:211-223 | changes nothing; visits the nodes in head-to-tail order, each once, and every node it visits is live; the pairs it visits are (position from 1, payload) for every payload in order; it returns the list itself |
| StackSpec.Listing | src/stack.c:216-219 | the listing has one pair per payload, and pair k is (first + k, payload k) |
| StackSpec.Popped | src/stack.c:157-164 | pop keeps the count at least the number of payloads, and removes exactly one payload when there is one |
| StackSpec.OperationsPreserveSound | src/stack.c:91-191 | the new list, push, pop and drop all keep the count at least the number of payloads |
| StackSpec.CountedAfterOperations | src/stack.c:136-191 | push and pop keep an exact count exact; after drop the count is exact if and only if it was 0 |
| StackSpec.PushPopRoundTrip | src/stack.c:157-191 | a pop right after a push of `x` returns `x` tagged present, even when `x` is `NONE`, and restores the previous payloads and count |
| StackSpec.PopOnEmpty | src/stack.c:157-167 | a pop on an empty chain returns `NONE` and leaves payloads and count unchanged |
| StackSpec.PushAllPrepends | src/stack.c:177-191 | pushing v1 .. vn puts vn .. v1 in front of the old payloads and adds n to the count |
| StackSpec.PopPrefix | src/stack.c:157-167 | popping `|p|` times from payloads `p + rest` returns the payloads of `p` in order and leaves `rest` with a count reduced by `|p|`; the next pop returns the head of `rest`, or nothing |
| StackSpec.LifoOrder | src/stack.c:157-191 | after pushing v1 .. vn onto a new list, n pops return vn .. v1, the next pop returns the empty indication, and the list is back to the new state |
| StackSpec.LengthAfterPushesAndPops | src/stack.c:157-191 | after k pushes onto a new list and j <= k pops, the count is exactly k - j and matches the number of payloads |
| StackSpec.InBandAmbiguity | src/stack.c:157-167 | pop returns `NONE` if and only if the chain is empty or its head holds `NONE` |
| StackSpec.InBandLosesOnlyEmptiness | src/stack.c:17 | two different pop results with the same return value are always "empty" and "present `NONE`" |
| StackSpec.SentinelIndistinguishable | src/stack.c:157-167 | a new list and a list holding only `NONE` have different pop results but the same return value |
| StackSpec.DropProperties | src/stack.c:136-148 | drop leaves no payloads and the same count, and a second drop changes nothing |
| StackSpec.StaleLengthAfterDrop | src/stack.c:136-148 | one push followed by a drop leaves a count of 1 over an empty chain, so the count is no longer exact |
| Demo.Scenario | src/stack.c:229-261 | replaying `main`, the three counts `main` reads (src/stack.c:232, 236, 242) are 0, 1, 4, and the two extra reads the model adds after the pop loop and at the end give 0 and 2; the pop loop receives 66, 77, 88, 99; the listing printed at src/stack.c:239 is (1,66) (2,77) (3,88) (4,99) and the last one printed at src/stack.c:255 is (1,4) (2,5); the other six prints are left out |
| Demo.PushFour | src/stack.c:231-242 | a new list after pushes of 99, 88, 77, 66 is Valid, holds 66, 77, 88, 99, and the counts read along the way are 0, 1, 4 |
| Demo.PopUntilNone | src/stack.c:248-252 | when no payload is `NONE`, popping until `NONE` returns every payload head first and leaves a Valid empty list |
| Demo.DropAndRefill | src/stack.c:255 | drop, push 5, push 4 on an emptied list gives payloads 4, 5, the listing (1,4) (2,5) and a count of 2 |
| Demo.SentinelCollision | src/stack.c:157-167 | a pop on an empty list and a pop of a stored `INT32_MAX` both return `NONE`, and the stored list is left with a count of 0 |
| Demo.DropKeepsCount | src/stack.c:136-148 | after one push and a drop, `list_len` reports 1 and a pop returns `NONE` |
| Demo.PushThenPop | src/stack.c:157-191 | push then pop on any linked list returns the pushed payload and restores the payloads, count, head, nodes and live set |

## Left out

- Console output. `printf` in `list_print` and `main` is not modelled, nor is
  its text format. `List.Print` returns the (position, payload) pairs it
  would print.
- Allocation failure. `malloc` returning NULL in `node_new` and the `assert`
  abort in `list_push` are not modelled; allocation always succeeds.
- The function-pointer fields of `struct list_s` and their setup in
  `list_new`. They are only call plumbing. The operations are methods of
  `List`, and the ones that return `List*` in C return the list itself.
- `hits`: it is set to 0 and nothing reads it.
- List.Push: the count is an unbounded `nat`, so the `size_t` wrap-around of
  `length++` is not modelled.
- List.Print: positions are unbounded `nat`s, so the `int32_t` overflow of
  the position counter past 2^31 - 1 nodes is not modelled.
- Use after free. Dafny objects outlive `free`, so reading a freed node is
  not an error in the model. Every operation that touches the chain
  (`List.Push`, `List.Pop`, `List.Drop` and `List.Print`)
  requires `Repr <= heap.Live`, so the nodes it reaches are live. But no
  contract forbids a client from reading a node after `NodeDrop`.
- `list_new` returns the list struct by value, and `main` works through a
  pointer to its copy. The model has one `List` object that `main` refers to.
- `src/stack.h` holds only macros and prototypes, which repeat src/stack.c.
