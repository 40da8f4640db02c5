/** The value-level meaning of the linked-list stack of src/stack.c.

    A list is observed through two things: the payloads of its nodes from head
    to tail, and the count it caches in `length`. The operations on the heap
    objects (module Stack) are specified by the functions below, and the
    properties of the stack as a whole (LIFO order, the counts, the in-band
    `NONE` sentinel, what drop leaves behind) are proved here once, on values. */
module StackSpec {

  /** `i32`, i.e. `int32_t`: the payload type. */
  newtype int32 = x: int | -0x8000_0000 <= x < 0x8000_0000

  /** `NONE`, defined as `INT32_MAX`: what pop returns when there is nothing to pop. */
  const NONE: int32 := 0x7FFF_FFFF

  datatype Option<T> = None | Some(value: T)

  /** The observable state of a list: the payloads from head to tail and the
      cached `length`. The two agree until a drop leaves the count behind. */
  datatype Abstract = Abstract(contents: seq<int32>, length: nat)

  /** What every reachable state satisfies: the cached count never falls below
      the number of linked nodes, so a pop on a non-empty chain never
      decrements a zero count. */
  predicate Sound(a: Abstract) {
    |a.contents| <= a.length
  }

  /** The count is exact: `length` is the number of linked nodes. */
  predicate Counted(a: Abstract) {
    |a.contents| == a.length
  }

  /** `list_new`: no nodes, a zero count. */
  function Empty(): (r: Abstract) {
    Abstract([], 0)
  }

  /** `list_push`: a new head carrying `x`, and `length` one more. */
  function Pushed(a: Abstract, x: int32): (r: Abstract) {
    Abstract([x] + a.contents, a.length + 1)
  }

  /** What `list_pop` has to hand back, as a discriminated result: the head's
      payload, or nothing when the chain is empty. */
  function PopResult(a: Abstract): (r: Option<int32>) {
    if a.contents == [] then None else Some(a.contents[0])
  }

  /** How `list_pop` puts that result into its `i32` return value: an absent
      payload becomes `NONE`. */
  function InBand(r: Option<int32>): (x: int32) {
    match r
    case None => NONE
    case Some(x) => x
  }

  /** The state `list_pop` leaves: the head unlinked and `length` one less, or
      nothing changed on an empty chain. */
  function Popped(a: Abstract): (r: Abstract)
    requires Sound(a)
    ensures Sound(r)
    ensures |r.contents| == if a.contents == [] then 0 else |a.contents| - 1
  {
    if a.contents == [] then a else Abstract(a.contents[1..], a.length - 1)
  }

  /** The state `list_drop` leaves: no nodes, and `length` as it was. */
  function Dropped(a: Abstract): (r: Abstract) {
    Abstract([], a.length)
  }

  /** The pairs `list_print` walks through: each payload with its 1-based
      position (`first` is the position of `c[0]`). */
  function Listing(c: seq<int32>, first: nat): (r: seq<(nat, int32)>)
    ensures |r| == |c|
    ensures forall k :: 0 <= k < |c| ==> r[k] == (first + k, c[k])
  {
    if c == [] then [] else [(first, c[0])] + Listing(c[1..], first + 1)
  }

  // ---------------------------------------------------------------- sequences of calls

  /** The state after pushing `vs[0]`, then `vs[1]`, and so on. */
  function PushAll(a: Abstract, vs: seq<int32>): (r: Abstract)
    ensures |r.contents| == |a.contents| + |vs| && r.length == a.length + |vs|
    decreases |vs|
  {
    if vs == [] then a else PushAll(Pushed(a, vs[0]), vs[1..])
  }

  /** The results of `n` pops in a row, the first pop's result first. */
  function PopResults(a: Abstract, n: nat): (r: seq<Option<int32>>)
    requires Sound(a)
    decreases n
  {
    if n == 0 then [] else [PopResult(a)] + PopResults(Popped(a), n - 1)
  }

  /** The state after `n` pops in a row. */
  function PopTimes(a: Abstract, n: nat): (r: Abstract)
    requires Sound(a)
    decreases n
  {
    if n == 0 then a else PopTimes(Popped(a), n - 1)
  }

  function Reversed(s: seq<int32>): (r: seq<int32>)
    ensures |r| == |s|
    ensures forall k :: 0 <= k < |s| ==> r[k] == s[|s| - 1 - k]
  {
    if s == [] then [] else Reversed(s[1..]) + [s[0]]
  }

  /** Every payload of `s`, each tagged present, in order. */
  function Somes(s: seq<int32>): (r: seq<Option<int32>>)
    ensures |r| == |s|
    ensures forall k :: 0 <= k < |s| ==> r[k] == Some(s[k])
  {
    if s == [] then [] else [Some(s[0])] + Somes(s[1..])
  }

  // ---------------------------------------------------------------- properties

  /** Every operation keeps the count at least the number of nodes, starting
      from the empty list; so every state a program can reach is Sound. */
  lemma OperationsPreserveSound(a: Abstract, x: int32)
    requires Sound(a)
    ensures Sound(Empty())
    ensures Sound(Pushed(a, x)) && Sound(Popped(a)) && Sound(Dropped(a))
  {
  }

  /** Push and pop keep an exact count exact; drop leaves an exact count
      exactly when the count was already zero, since it does not reset it. */
  lemma CountedAfterOperations(a: Abstract, x: int32)
    requires Counted(a)
    ensures Counted(Empty())
    ensures Counted(Pushed(a, x)) && Counted(Popped(a))
    ensures Counted(Dropped(a)) <==> a.length == 0
  {
  }

  /** LIFO round trip: a pop right after a push returns the pushed payload,
      tagged present even when it equals `NONE`, and restores the state. */
  lemma PushPopRoundTrip(a: Abstract, x: int32)
    requires Sound(a)
    ensures PopResult(Pushed(a, x)) == Some(x)
    ensures InBand(PopResult(Pushed(a, x))) == x
    ensures Popped(Pushed(a, x)) == a
  {
  }

  /** Pop on an empty chain returns `NONE` and changes nothing, whatever the
      cached count says. */
  lemma PopOnEmpty(a: Abstract)
    requires Sound(a) && a.contents == []
    ensures InBand(PopResult(a)) == NONE
    ensures Popped(a) == a
  {
  }

  /** Pushing a sequence puts it, reversed, in front of what was there. */
  lemma {:induction false} PushAllPrepends(a: Abstract, vs: seq<int32>)
    ensures PushAll(a, vs) == Abstract(Reversed(vs) + a.contents, a.length + |vs|)
    decreases |vs|
  {
    if vs != [] {
      PushAllPrepends(Pushed(a, vs[0]), vs[1..]);
      assert Reversed(vs) == Reversed(vs[1..]) + [vs[0]];
      assert Reversed(vs) + a.contents == Reversed(vs[1..]) + ([vs[0]] + a.contents);
    }
  }

  /** Popping `|p|` times from a chain that starts with `p` returns the
      payloads of `p` in order and leaves the rest; one more pop returns
      whatever the rest would give first. */
  lemma {:induction false} PopPrefix(p: seq<int32>, rest: seq<int32>, len: nat)
    requires |p| + |rest| <= len
    ensures PopTimes(Abstract(p + rest, len), |p|) == Abstract(rest, len - |p|)
    ensures PopResults(Abstract(p + rest, len), |p|) == Somes(p)
    ensures PopResults(Abstract(p + rest, len), |p| + 1)
         == Somes(p) + [PopResult(Abstract(rest, len - |p|))]
    decreases |p|
  {
    var a := Abstract(p + rest, len);
    if p == [] {
      assert p + rest == rest;
    } else {
      assert (p + rest)[1..] == p[1..] + rest;
      assert Popped(a) == Abstract(p[1..] + rest, len - 1);
      PopPrefix(p[1..], rest, len - 1);
      assert Somes(p) == [Some(p[0])] + Somes(p[1..]);
    }
  }

  /** LIFO order: after pushing v1 .. vn onto a new list, n pops return
      vn .. v1, the next pop returns the empty indication, and the list is
      back to its initial state. */
  lemma LifoOrder(vs: seq<int32>)
    ensures PopResults(PushAll(Empty(), vs), |vs| + 1) == Somes(Reversed(vs)) + [None]
    ensures PopTimes(PushAll(Empty(), vs), |vs|) == Empty()
  {
    PushAllPrepends(Empty(), vs);
    assert Reversed(vs) + [] == Reversed(vs);
    PopPrefix(Reversed(vs), [], |vs|);
  }

  /** After k pushes onto a new list and j <= k pops, the count is k - j. */
  lemma LengthAfterPushesAndPops(vs: seq<int32>, j: nat)
    requires j <= |vs|
    ensures Sound(PushAll(Empty(), vs))
    ensures PopTimes(PushAll(Empty(), vs), j).length == |vs| - j
    ensures Counted(PopTimes(PushAll(Empty(), vs), j))
  {
    PushAllPrepends(Empty(), vs);
    var r := Reversed(vs);
    assert r[..j] + r[j..] == r;
    assert r + [] == r;
    PopPrefix(r[..j], r[j..], |vs|);
  }

  /** The in-band return value cannot tell an empty list from one whose head
      holds `NONE`: it is `NONE` exactly in those two cases. */
  lemma InBandAmbiguity(a: Abstract)
    ensures InBand(PopResult(a)) == NONE <==> (a.contents == [] || a.contents[0] == NONE)
  {
  }

  /** The in-band encoding loses exactly one distinction: two different pop
      results with the same return value are "empty" and "present NONE". */
  lemma InBandLosesOnlyEmptiness(r1: Option<int32>, r2: Option<int32>)
    requires r1 != r2 && InBand(r1) == InBand(r2)
    ensures {r1, r2} == {None, Some(NONE)}
  {
  }

  /** A new list and a list holding only `NONE` give the same return value
      from pop, though only the second had something to pop. */
  lemma SentinelIndistinguishable()
    ensures PopResult(Empty()) != PopResult(Pushed(Empty(), NONE))
    ensures InBand(PopResult(Empty())) == InBand(PopResult(Pushed(Empty(), NONE)))
  {
  }

  /** Drop removes every node, keeps the count, and a second drop changes
      nothing more. */
  lemma DropProperties(a: Abstract)
    ensures Dropped(a).contents == [] && Dropped(a).length == a.length
    ensures Dropped(Dropped(a)) == Dropped(a)
  {
  }

  /** After one push, a drop leaves a count of 1 with no nodes linked. */
  lemma StaleLengthAfterDrop(x: int32)
    ensures Dropped(Pushed(Empty(), x)) == Abstract([], 1)
    ensures !Counted(Dropped(Pushed(Empty(), x)))
  {
  }
}
