/**
 * The linked-list tail queue of sim_atomic.c: a singly linked chain from `head`, and a
 * `tail` that addresses the link the next append writes — the queue's own `head` field
 * while the queue is empty, the last node's `next` field otherwise.
 *
 * The chain is modelled as the sequence of its nodes, in `next` order; a node's `next`
 * is the node after it in that sequence. The compare-and-swap updates of the head and
 * tail are single assignments here.
 */
module AtomicTailq {
  import opened Wrappers
  import SimAtomic

  /** A list node `sim_tailq_elem_t`; its item pointer is fixed when it is allocated. */
  class Node<T> {
    const elem: Option<T>

    constructor (elem: Option<T>)
      ensures this.elem == elem
    {
      this.elem := elem;
    }
  }

  /** What `tail` points at: the queue's `head` field, a node's `next` field, or NULL. */
  datatype TailLink<T> = HeadSlot | NextSlot(node: Node<T>) | NullTail

  /** The item pointers held by a chain of nodes, in order. */
  function Elems<T>(ns: seq<Node<T>>): (r: seq<Option<T>>)
    ensures |r| == |ns|
  {
    if ns == [] then [] else [ns[0].elem] + Elems(ns[1..])
  }

  /** Item `i` of a chain is the item of its node `i`. */
  lemma {:induction false} ElemsAt<T>(ns: seq<Node<T>>, i: nat)
    requires i < |ns|
    ensures Elems(ns)[i] == ns[i].elem
  {
    if i > 0 {
      ElemsAt(ns[1..], i - 1);
    }
  }

  /** The items of a concatenated chain are the concatenated items. */
  lemma ElemsAppend<T>(a: seq<Node<T>>, b: seq<Node<T>>)
    ensures Elems(a + b) == Elems(a) + Elems(b)
  {
    assert |Elems(a + b)| == |Elems(a) + Elems(b)|;
    forall i | 0 <= i < |a + b|
      ensures Elems(a + b)[i] == (Elems(a) + Elems(b))[i]
    {
      ElemsAt(a + b, i);
      if i < |a| {
        ElemsAt(a, i);
      } else {
        ElemsAt(b, i - |a|);
      }
    }
  }

  class TailqList<T> {
    /** The chain from `head`; empty when `head` is NULL. */
    var nodes: seq<Node<T>>
    var tail: TailLink<T>
    /** `n_elements`: the item count. */
    const nElements: SimAtomic.AtomicValue
    var lock: SimAtomic.Mutex?
    var paired: bool

    /** The items, head first. */
    function Contents(): (r: seq<Option<T>>)
      reads this
      ensures |r| == |nodes|
    {
      Elems(nodes)
    }

    /** The count matches the chain, and `tail` addresses the link after its last node (or `head`). */
    ghost predicate Valid()
      reads this, nElements
    {
      && nElements.value == |nodes|
      && tail == (if nodes == [] then HeadSlot else NextSlot(nodes[|nodes| - 1]))
    }

    /** A declared but not yet initialised queue. */
    constructor ()
      ensures nodes == [] && tail == NullTail && lock == null && fresh(nElements)
    {
      nodes := [];
      tail := NullTail;
      nElements := new SimAtomic.AtomicValue();
      lock := null;
      paired := false;
    }

    /** `sim_tailq_init`: an empty queue whose `tail` addresses its `head`, with a mutex of its own. */
    method Init()
      modifies this, nElements
      ensures Valid() && Contents() == [] && tail == HeadSlot
      ensures !paired && lock != null && fresh(lock)
      ensures nElements.paired && nElements.valueLock == lock
    {
      nodes := [];
      tail := HeadSlot;
      paired := false;
      lock := new SimAtomic.Mutex();
      nElements.PairedInit(lock);
      nElements.Put(0);
    }

    /** `sim_tailq_paired_init`: as Init, sharing the caller's mutex. */
    method PairedInit(mutex: SimAtomic.Mutex)
      modifies this, nElements
      ensures Valid() && Contents() == [] && tail == HeadSlot
      ensures paired && lock == mutex
      ensures nElements.paired && nElements.valueLock == mutex
    {
      nodes := [];
      tail := HeadSlot;
      paired := true;
      lock := mutex;
      nElements.PairedInit(lock);
      nElements.Put(0);
    }

    /**
     * `sim_tailq_insert_head`: put a new node before the head. The first node of an empty
     * queue also becomes the tail. `ok` is false (NULL returned, nothing changed) when the
     * node cannot be allocated.
     */
    method InsertHead(elem: Option<T>, allocOk: bool) returns (ok: bool)
      requires Valid()
      modifies this, nElements
      ensures Valid()
      ensures ok == allocOk
      ensures Contents() == if ok then [elem] + old(Contents()) else old(Contents())
      ensures ok && old(nodes) == [] ==> tail == NextSlot(nodes[0])
      ensures ok && old(nodes) != [] ==> tail == old(tail)
      ensures lock == old(lock) && paired == old(paired)
    {
      if !allocOk {
        return false;
      }
      var newHead := new Node(elem);
      if nodes == [] {
        tail := NextSlot(newHead);
      }
      nodes := [newHead] + nodes;
      var _ := nElements.Inc();
      return true;
    }

    /** `sim_tailq_append`: write a new node into the link `tail` addresses and move `tail` to its `next`. */
    method Append(elem: Option<T>, allocOk: bool) returns (ok: bool)
      requires Valid()
      modifies this, nElements
      ensures Valid()
      ensures ok == allocOk
      ensures Contents() == if ok then old(Contents()) + [elem] else old(Contents())
      ensures ok ==> tail.NextSlot? && tail.node.elem == elem
      ensures lock == old(lock) && paired == old(paired)
    {
      if !allocOk {
        return false;
      }
      var newTail := new Node(elem);
      nodes := nodes + [newTail];
      tail := NextSlot(newTail);
      var _ := nElements.Inc();
      ElemsAppend(old(nodes), [newTail]);
      return true;
    }

    /**
     * `sim_tailq_take`, called on the source: an empty source leaves both queues as they
     * were. Otherwise `dst` gets the source's chain, tail and count (its own chain is
     * dropped), and the source becomes empty with its `tail` at its own `head`.
     * Returns `dst` either way.
     */
    method Take(dst: TailqList<T>) returns (r: TailqList<T>)
      requires Valid() && dst.Valid()
      requires dst != this && dst.nElements != nElements
      modifies this, nElements, dst, dst.nElements
      ensures r == dst
      ensures Valid() && dst.Valid()
      ensures old(Contents()) == [] ==> Contents() == [] && dst.Contents() == old(dst.Contents())
      ensures old(Contents()) != [] ==> dst.Contents() == old(Contents()) && Contents() == [] && tail == HeadSlot
      ensures old(Contents()) != [] ==> dst.Count() == old(Count()) && Count() == 0
      ensures lock == old(lock) && paired == old(paired) && dst.lock == old(dst.lock) && dst.paired == old(dst.paired)
    {
      if nodes == [] {
        return dst;
      }
      dst.nodes := nodes;
      dst.tail := tail;
      nodes := [];
      tail := HeadSlot;
      var n := nElements.Get();
      dst.nElements.Put(n);
      nElements.Put(0);
      return dst;
    }

    /**
     * `sim_tailq_splice`, called on `onto`: an empty `from` changes nothing. Otherwise
     * `from`'s chain is linked in at `onto`'s tail, `onto` takes `from`'s tail, the counts
     * add up, and `from` becomes empty with its `tail` at its own `head`. Returns `onto`.
     */
    method Splice(from: TailqList<T>) returns (r: TailqList<T>)
      requires Valid() && from.Valid()
      requires from != this && from.nElements != nElements
      modifies this, nElements, from, from.nElements
      ensures r == this
      ensures Valid() && from.Valid()
      ensures old(from.Contents()) == [] ==> Contents() == old(Contents()) && from.Contents() == []
      ensures old(from.Contents()) != [] ==>
                Contents() == old(Contents()) + old(from.Contents()) && from.Contents() == [] && from.tail == HeadSlot
      ensures old(from.Contents()) != [] ==> tail == old(from.tail) && Count() == old(Count()) + old(from.Count())
      ensures lock == old(lock) && paired == old(paired) && from.lock == old(from.lock) && from.paired == old(from.paired)
    {
      if from.nodes == [] {
        return this;
      }
      ElemsAppend(nodes, from.nodes);
      nodes := nodes + from.nodes;
      tail := from.tail;
      var n := from.nElements.Get();
      var _ := nElements.Add(n);
      from.nodes := [];
      from.tail := HeadSlot;
      from.nElements.Put(0);
      return this;
    }

    /**
     * `sim_tailq_dequeue_head`: NULL on an empty queue; otherwise unlink the head node and
     * return its item. Removing the last node points `tail` back at `head`.
     */
    method DequeueHead() returns (x: Option<T>)
      requires Valid()
      modifies this, nElements
      ensures Valid()
      ensures old(Contents()) == [] ==> x == None && Contents() == [] && tail == old(tail)
      ensures old(Contents()) != [] ==> x == old(Contents())[0] && Contents() == old(Contents())[1..]
      ensures old(Contents()) != [] && |old(Contents())| == 1 ==> tail == HeadSlot
      ensures old(Contents()) != [] && |old(Contents())| > 1 ==> tail == old(tail)
      ensures lock == old(lock) && paired == old(paired)
    {
      if nodes == [] {
        return None;
      }
      var head := nodes[0];
      nodes := nodes[1..];
      if nodes == [] {
        tail := HeadSlot;
      }
      x := head.elem;
      var _ := nElements.Dec();
    }

    /** `sim_tailq_count`: the stored element count. */
    function Count(): (r: int)
      reads this, nElements
      requires Valid()
      ensures r == |Contents()|
    {
      nElements.Get()
    }

    /**
     * `sim_tailq_destroy`: detach the chain, NULL the head and tail, release the mutex
     * unless paired, then free every node in order, and its item only when `freeElems`;
     * last, destroy the counter.
     */
    method Destroy(freeElems: bool) returns (nodesFreed: nat, itemsFreed: seq<Option<T>>, released: SimAtomic.Mutex?)
      requires Valid()
      modifies this, nElements
      ensures nodesFreed == |old(nodes)|
      ensures itemsFreed == if freeElems then old(Contents()) else []
      ensures nodes == [] && tail == NullTail && !paired
      ensures nElements.value == -1
      ensures released == (if old(paired) then null else old(lock))
    {
      var q := nodes;
      released := if paired then null else lock;
      nodesFreed := 0;
      itemsFreed := [];
      while nodesFreed < |q|
        invariant nodesFreed <= |q|
        invariant itemsFreed == if freeElems then Elems(q[..nodesFreed]) else []
      {
        if freeElems {
          ElemsAppend(q[..nodesFreed], [q[nodesFreed]]);
          assert q[..nodesFreed + 1] == q[..nodesFreed] + [q[nodesFreed]];
          itemsFreed := itemsFreed + [q[nodesFreed].elem];
        }
        nodesFreed := nodesFreed + 1;
      }
      assert q[..nodesFreed] == q;
      nodes := [];
      paired := false;
      tail := NullTail;
      var _ := nElements.Destroy();
    }
  }

  /** Inserting the items of `xs` at the head, last item first, puts `xs` in order before the existing items. */
  method HeadInsertAll<T>(l: TailqList<T>, xs: seq<Option<T>>)
    requires l.Valid()
    modifies l, l.nElements
    ensures l.Valid() && l.Contents() == xs + old(l.Contents())
    ensures l.lock == old(l.lock) && l.paired == old(l.paired)
  {
    ghost var start := l.Contents();
    var i := |xs|;
    while i > 0
      invariant 0 <= i <= |xs|
      invariant l.Valid() && l.Contents() == xs[i..] + start
      invariant l.lock == old(l.lock) && l.paired == old(l.paired)
      decreases i
    {
      i := i - 1;
      var _ := l.InsertHead(xs[i], true);
      ConsSuffix(xs, i, start);
    }
    assert xs[0..] == xs;
  }

  /** Putting item `i` before the items after it gives the suffix from `i`. */
  lemma ConsSuffix<T>(xs: seq<T>, i: nat, rest: seq<T>)
    requires i < |xs|
    ensures [xs[i]] + (xs[i + 1..] + rest) == xs[i..] + rest
  {
    assert xs[i..] == [xs[i]] + xs[i + 1..];
  }

  /** Appending every item of `xs` in order adds them after the existing items. */
  method AppendAll<T>(l: TailqList<T>, xs: seq<Option<T>>)
    requires l.Valid()
    modifies l, l.nElements
    ensures l.Valid() && l.Contents() == old(l.Contents()) + xs
    ensures l.lock == old(l.lock) && l.paired == old(l.paired)
  {
    for i := 0 to |xs|
      invariant l.Valid() && l.Contents() == old(l.Contents()) + xs[..i]
      invariant l.lock == old(l.lock) && l.paired == old(l.paired)
    {
      var _ := l.Append(xs[i], true);
      assert xs[..i + 1] == xs[..i] + [xs[i]];
    }
    assert xs[..|xs|] == xs;
  }

  /**
   * The insert test: on a fresh queue, head inserts of `a` (last item first) give `a`
   * with count `|a|`, and appends of `b` after them give `a ++ b`.
   */
  method HeadThenTail<T>(a: seq<Option<T>>, b: seq<Option<T>>) returns (afterHeads: seq<Option<T>>, count: int, afterTails: seq<Option<T>>)
    ensures afterHeads == a && count == |a|
    ensures afterTails == a + b
  {
    var l := new TailqList();
    l.Init();
    HeadInsertAll(l, a);
    afterHeads := l.Contents();
    count := l.Count();
    AppendAll(l, b);
    afterTails := l.Contents();
  }

  /** The mixed test: on a fresh queue, appends of `a` then head inserts of `b` (last item first) give `b ++ a`. */
  method TailThenHead<T>(a: seq<Option<T>>, b: seq<Option<T>>) returns (r: seq<Option<T>>)
    ensures r == b + a
  {
    var l := new TailqList();
    l.Init();
    AppendAll(l, a);
    HeadInsertAll(l, b);
    r := l.Contents();
  }

  /**
   * The take half of the take/splice test: `l` gets `a` (non-empty) and is taken into an
   * empty `l2`. The take returns `l2`, which then holds `a` with count `|a|`; `l` is empty
   * with count 0 and its tail at its own head.
   */
  method TakeScenario<T>(a: seq<Option<T>>) returns (l: TailqList<T>, l2: TailqList<T>, returned: TailqList<T>)
    requires a != []
    ensures fresh(l) && fresh(l.nElements) && fresh(l2) && fresh(l2.nElements)
    ensures l != l2 && l.nElements != l2.nElements
    ensures returned == l2
    ensures l.Valid() && l.Contents() == [] && l.tail == HeadSlot && l.Count() == 0
    ensures l2.Valid() && l2.Contents() == a && l2.Count() == |a|
  {
    l := new TailqList();
    l.Init();
    l2 := new TailqList();
    l2.Init();
    AppendAll(l, a);
    returned := l.Take(l2);
  }

  /**
   * The take/splice test: after the take, `l` gets `b` and `l2` is spliced onto it; the
   * splice returns `l`, `l` holds `b ++ a`, and `l2` is empty with its tail at its own
   * head. Appending `c` to `l` then lands after the spliced items: `b ++ a ++ c`.
   */
  method TakeSpliceScenario<T>(a: seq<Option<T>>, b: seq<Option<T>>, c: seq<Option<T>>)
    returns (spliced: seq<Option<T>>, final: seq<Option<T>>, returnedOnto: bool, emptied: bool)
    requires a != []
    ensures spliced == b + a
    ensures final == b + a + c
    ensures returnedOnto && emptied
  {
    var l, l2, _ := TakeScenario(a);
    AppendAll(l, b);
    var r := l.Splice(l2);
    returnedOnto := r == l;
    spliced := l.Contents();
    assert l2.Contents() == [] && l2.tail == HeadSlot;
    AppendAll(l, c);
    final := l.Contents();
    emptied := l2.Contents() == [] && l2.tail == HeadSlot && l2.Count() == 0;
  }
}
