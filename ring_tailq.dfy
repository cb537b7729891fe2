/**
 * The ring-buffer tail queue `sim_tailq_t` of sim_tailq.c / sim_tailq.h.
 *
 * The queue is a circular ring of nodes, each holding one item pointer. `head` is
 * the oldest item, `tail` the node the next enqueue fills. The ring is modelled as
 * the sequence of the nodes' item slots in `next` order, so node `i` is followed by
 * node `Next(i)`; `head` and `tail` are positions in that sequence. Item pointers
 * are `Option<T>`, with `None` for NULL.
 */
module SimTailq {
  import opened Wrappers
  import SimAtomic

  /** Nodes allocated by `tailq_alloc`. */
  const INITIAL_TAILQ_NODES: nat := 17

  /** The position a NULL `head` or `tail` pointer is given. */
  const NULL_NODE: int := -1

  /** Number of `next` steps from node `h` to node `t` in a ring of `n` nodes. */
  function Dist(h: nat, t: nat, n: nat): (d: nat)
    requires h < n && t < n
    ensures d < n
    ensures d == 0 <==> h == t
  {
    if h <= t then t - h else t + n - h
  }

  /** Position `x` of the unrolled ring, for `x < 2n`, folded back into the ring. */
  function Wrap(x: nat, n: nat): (r: nat)
    requires x < 2 * n
    ensures r < n
  {
    if x < n then x else x - n
  }

  /** The `k` item slots met walking `next` from node `h`. */
  function Segment<T>(ring: seq<T>, h: nat, k: nat): (s: seq<T>)
    requires h < |ring| && k <= |ring|
    ensures |s| == k
  {
    if h + k <= |ring| then ring[h..h + k] else ring[h..] + ring[..h + k - |ring|]
  }

  /** The `i`-th slot of a segment is the slot `i` steps after its start. */
  lemma SegmentAt<T>(ring: seq<T>, h: nat, k: nat, i: nat)
    requires h < |ring| && k <= |ring| && i < k
    ensures Segment(ring, h, k)[i] == ring[Wrap(h + i, |ring|)]
  {
  }

  /** Dropping the first slot of a segment leaves the segment starting one node on. */
  lemma SegmentRest<T>(ring: seq<T>, h: nat, k: nat)
    requires h < |ring| && 0 < k <= |ring|
    ensures Segment(ring, h, k)[0] == ring[h]
    ensures Segment(ring, if h + 1 == |ring| then 0 else h + 1, k - 1) == Segment(ring, h, k)[1..]
  {
    var h' := if h + 1 == |ring| then 0 else h + 1;
    forall i | 0 <= i < k - 1
      ensures Segment(ring, h', k - 1)[i] == Segment(ring, h, k)[1..][i]
    {
      SegmentAt(ring, h', k - 1, i);
      SegmentAt(ring, h, k, i + 1);
    }
  }

  /** The whole ring walked from any node meets every slot. */
  lemma SegmentWhole<T>(ring: seq<T>, h: nat, j: nat)
    requires h < |ring| && j < |ring|
    ensures ring[j] in Segment(ring, h, |ring|)
  {
    if j >= h {
      assert ring[j] == ring[h..][j - h];
    } else {
      assert ring[j] == ring[..h][j];
    }
  }

  class Tailq<T> {
    /** Item slot of each ring node, in `next` order. */
    var ring: seq<Option<T>>
    /** Oldest item's node, or NULL_NODE. */
    var head: int
    /** Next node to fill, or NULL_NODE. */
    var tail: int
    /** `n_elements`: the item count. */
    const nElements: SimAtomic.AtomicValue
    /** The queue's mutex and whether the caller supplied it. */
    var lock: SimAtomic.Mutex?
    var paired: bool

    /** The items, oldest first. */
    ghost var Contents: seq<Option<T>>

    /** The queue invariant: `count == distance(head, tail) < ring size`, and the items sit in those nodes. */
    ghost predicate Valid()
      reads this, nElements
    {
      && INITIAL_TAILQ_NODES <= |ring|
      && 0 <= head < |ring| && 0 <= tail < |ring|
      && nElements.value == Dist(head, tail, |ring|)
      && Contents == Segment(ring, head, nElements.value)
    }

    /** The successor of node `i` in the ring. */
    function Next(i: nat): (r: nat)
      reads this
      requires i < |ring|
      ensures r < |ring|
    {
      if i + 1 == |ring| then 0 else i + 1
    }

    /** A declared but not yet initialised queue. */
    constructor ()
      ensures ring == [] && head == NULL_NODE && tail == NULL_NODE && fresh(nElements)
    {
      ring := [];
      head, tail := NULL_NODE, NULL_NODE;
      nElements := new SimAtomic.AtomicValue();
      lock := null;
      paired := false;
      Contents := [];
    }

    /**
     * `sim_tailq_init`: allocate the ring and make it the empty queue, owning a fresh
     * mutex. Returns 1, or 0 when the ring cannot be allocated (then head and tail are NULL).
     */
    method Init(allocOk: bool) returns (r: int)
      modifies this, nElements
      ensures r == (if allocOk then 1 else 0)
      ensures !paired
      ensures allocOk ==> Valid() && Contents == [] && head == tail == 0
      ensures allocOk ==> |ring| == INITIAL_TAILQ_NODES && (forall i :: 0 <= i < |ring| ==> ring[i] == None)
      ensures allocOk ==> lock != null && fresh(lock) && nElements.paired && nElements.valueLock == lock
      ensures !allocOk ==> head == NULL_NODE && tail == NULL_NODE
    {
      paired := false;
      var nodes := TailqAlloc(allocOk);
      if nodes.None? {
        head, tail := NULL_NODE, NULL_NODE;
        return 0;
      }
      ring := nodes.value;
      head, tail := 0, 0;
      lock := new SimAtomic.Mutex();
      nElements.PairedInit(lock);
      nElements.Put(0);
      Contents := [];
      return 1;
    }

    /** `sim_tailq_paired_init`: as Init, but sharing the caller's mutex. */
    method PairedInit(mutex: SimAtomic.Mutex, allocOk: bool) returns (r: int)
      modifies this, nElements
      ensures r == (if allocOk then 1 else 0)
      ensures paired
      ensures allocOk ==> Valid() && Contents == [] && head == tail == 0
      ensures allocOk ==> |ring| == INITIAL_TAILQ_NODES && (forall i :: 0 <= i < |ring| ==> ring[i] == None)
      ensures allocOk ==> lock == mutex && nElements.paired && nElements.valueLock == mutex
      ensures !allocOk ==> head == NULL_NODE && tail == NULL_NODE
    {
      paired := true;
      var nodes := TailqAlloc(allocOk);
      if nodes.None? {
        head, tail := NULL_NODE, NULL_NODE;
        return 0;
      }
      ring := nodes.value;
      head, tail := 0, 0;
      lock := mutex;
      nElements.PairedInit(lock);
      nElements.Put(0);
      Contents := [];
      return 1;
    }

    /**
     * `tailq_alloc`: link INITIAL_TAILQ_NODES nodes with empty item slots into a ring,
     * or NULL when an allocation fails.
     */
    static method TailqAlloc(allocOk: bool) returns (nodes: Option<seq<Option<T>>>)
      ensures nodes.Some? <==> allocOk
      ensures nodes.Some? ==> |nodes.value| == INITIAL_TAILQ_NODES
      ensures nodes.Some? ==> forall i :: 0 <= i < |nodes.value| ==> nodes.value[i] == None
    {
      if !allocOk {
        return None;
      }
      var ring: seq<Option<T>> := [];
      for i := 0 to INITIAL_TAILQ_NODES
        invariant |ring| == i
        invariant forall k :: 0 <= k < i ==> ring[k] == None
      {
        ring := ring + [None];
      }
      return Some(ring);
    }

    /**
     * `sim_tailq_enqueue`: when the node after `tail` is `head`, first splice a fresh node
     * in after `tail`; then store the item in the tail node and advance `tail`.
     */
    method Enqueue(elem: Option<T>)
      requires Valid()
      modifies this, nElements
      ensures Valid()
      ensures Contents == old(Contents) + [elem]
      ensures |ring| == old(|ring|) + (if old(Next(tail)) == old(head) then 1 else 0)
      ensures lock == old(lock) && paired == old(paired)
    {
      MakeRoom();
      ghost var r := ring;
      var t := AdvanceTail();
      ring := ring[t := elem];
      Contents := Contents + [elem];
      EnqueueFill(r, head, t, elem);
    }

    /** The growth step of `sim_tailq_enqueue`: a full ring gets a new node after `tail`. */
    method MakeRoom()
      requires Valid()
      modifies this
      ensures Valid() && Next(tail) != head
      ensures Contents == old(Contents) && tail == old(tail)
      ensures |ring| == old(|ring|) + (if old(Next(tail)) == old(head) then 1 else 0)
      ensures lock == old(lock) && paired == old(paired)
    {
      if Next(tail) == head {
        var _ := TailqAddNode();
        EnqueueStep(old(ring), old(head), old(tail), nElements.value, ring, head, tail);
      }
    }

    /**
     * `sim_tailq_dequeue`: NULL, with nothing changed, when `head == tail`; otherwise the
     * head node's item, advancing `head`. The node stays in the ring.
     */
    method Dequeue() returns (x: Option<T>)
      requires Valid()
      modifies this, nElements
      ensures Valid()
      ensures old(Contents) == [] ==> x == None && Contents == [] && head == old(head) && tail == old(tail)
      ensures old(Contents) != [] ==> x == old(Contents)[0] && Contents == old(Contents)[1..]
      ensures ring == old(ring) && tail == old(tail)
      ensures lock == old(lock) && paired == old(paired)
    {
      if head == tail {
        return None;
      }
      SegmentRest(ring, head, nElements.value);
      var h := AdvanceHead();
      x := ring[h];
      Contents := Contents[1..];
    }

    /** `advance_head`: move `head` one node on, count down by one; returns the old head. */
    method AdvanceHead() returns (h: nat)
      requires 0 <= head < |ring|
      modifies this, nElements
      ensures ring == old(ring) && tail == old(tail) && Contents == old(Contents)
      ensures h == old(head) && head == Next(h)
      ensures nElements.value == old(nElements.value) - 1
      ensures lock == old(lock) && paired == old(paired)
    {
      h := head;
      head := Next(head);
      var _ := nElements.Dec();
    }

    /** `advance_tail`: move `tail` one node on, count up by one; returns the old tail. */
    method AdvanceTail() returns (t: nat)
      requires 0 <= tail < |ring|
      modifies this, nElements
      ensures ring == old(ring) && head == old(head) && Contents == old(Contents)
      ensures t == old(tail) && tail == Next(t)
      ensures nElements.value == old(nElements.value) + 1
      ensures lock == old(lock) && paired == old(paired)
    {
      t := tail;
      tail := Next(tail);
      var _ := nElements.Inc();
    }

    /**
     * `tailq_add_node`: splice a node with an empty item slot in directly after `tail`.
     * Nodes after the splice point move one position on, `head` with them.
     */
    method TailqAddNode() returns (node: nat)
      requires 0 <= tail < |ring| && 0 <= head < |ring|
      modifies this
      ensures node == old(tail) + 1
      ensures ring == old(ring)[..node] + [None] + old(ring)[node..]
      ensures tail == old(tail)
      ensures head == (if old(head) > old(tail) then old(head) + 1 else old(head))
      ensures Contents == old(Contents) && lock == old(lock) && paired == old(paired)
    {
      node := tail + 1;
      ring := ring[..node] + [None] + ring[node..];
      if head > tail {
        head := head + 1;
      }
    }

    /** After a growth step, the queue is still the old one, with room for one more item. */
    static lemma EnqueueStep(ring0: seq<Option<T>>, h0: nat, t0: nat, c: nat, ring1: seq<Option<T>>, h1: int, t1: int)
      requires INITIAL_TAILQ_NODES <= |ring0| && h0 < |ring0| && t0 < |ring0| && c == Dist(h0, t0, |ring0|)
      requires t1 == t0
      requires (if t0 + 1 == |ring0| then 0 else t0 + 1) == h0 ==>
                 ring1 == ring0[..t0 + 1] + [None] + ring0[t0 + 1..] && h1 == (if h0 > t0 then h0 + 1 else h0)
      requires (if t0 + 1 == |ring0| then 0 else t0 + 1) != h0 ==> ring1 == ring0 && h1 == h0
      ensures 0 <= h1 < |ring1| && 0 <= t1 < |ring1| && INITIAL_TAILQ_NODES <= |ring1|
      ensures Dist(h1, t1, |ring1|) == c
      ensures (if t1 + 1 == |ring1| then 0 else t1 + 1) != h1
      ensures Segment(ring1, h1, c) == Segment(ring0, h0, c)
    {
      var n := |ring0|;
      if (if t0 + 1 == n then 0 else t0 + 1) == h0 {
        forall i | 0 <= i < c
          ensures Segment(ring1, h1, c)[i] == Segment(ring0, h0, c)[i]
        {
          SegmentAt(ring1, h1, c, i);
          SegmentAt(ring0, h0, c, i);
        }
      }
    }

    /** Filling the tail node and advancing `tail` appends the item to the queue. */
    static lemma EnqueueFill(ring: seq<Option<T>>, h: nat, t: nat, elem: Option<T>)
      requires h < |ring| && t < |ring|
      requires (if t + 1 == |ring| then 0 else t + 1) != h
      ensures Dist(h, t, |ring|) + 1 < |ring|
      ensures Dist(h, if t + 1 == |ring| then 0 else t + 1, |ring|) == Dist(h, t, |ring|) + 1
      ensures Segment(ring[t := elem], h, Dist(h, t, |ring|) + 1) == Segment(ring, h, Dist(h, t, |ring|)) + [elem]
    {
      var c := Dist(h, t, |ring|);
      var r := ring[t := elem];
      forall i | 0 <= i < c + 1
        ensures Segment(r, h, c + 1)[i] == (Segment(ring, h, c) + [elem])[i]
      {
        SegmentAt(r, h, c + 1, i);
        if i < c {
          SegmentAt(ring, h, c, i);
        }
      }
    }

    /** `sim_tailq_empty`: true exactly when head and tail are the same node. */
    function Empty(): (r: bool)
      reads this, nElements
      requires Valid()
      ensures r <==> Contents == []
    {
      head == tail
    }

    /** `sim_tailq_count`: the stored element count. */
    function Count(): (r: int)
      reads this, nElements
      requires Valid()
      ensures r == |Contents|
    {
      nElements.Get()
    }

    /** `sim_tailq_at_tail`: true when node `p` is the current tail, the node the next enqueue fills. */
    function AtTail(p: int): (r: bool)
      reads this, nElements
      requires Valid()
      ensures r <==> 0 <= p < |ring| && Dist(head, p, |ring|) == |Contents|
    {
      tail == p
    }

    /** `sim_tailq_item`: a node's item slot; at the head of a non-empty queue it is the oldest item. */
    function Item(node: nat): (r: Option<T>)
      reads this, nElements
      requires node < |ring|
      ensures Valid() && node == head && Contents != [] ==> r == Contents[0]
    {
      ring[node]
    }

    /**
     * `sim_tailq_destroy`: walk the ring once from `head`, freeing every node and, only when
     * `freeElems`, each node's item; then NULL the head and tail and destroy the counter.
     * The queue's own mutex is released unless it was paired.
     */
    method Destroy(freeElems: bool) returns (nodesFreed: nat, itemsFreed: seq<Option<T>>, released: SimAtomic.Mutex?)
      requires Valid()
      modifies this, nElements
      ensures nodesFreed == old(|ring|)
      ensures itemsFreed == if freeElems then Segment(old(ring), old(head), old(|ring|)) else []
      ensures freeElems ==> itemsFreed[..old(|Contents|)] == old(Contents)
      ensures head == NULL_NODE && tail == NULL_NODE && ring == []
      ensures nElements.value == -1
      ensures released == (if old(paired) then null else old(lock))
    {
      released := if paired then null else lock;
      var r := ring;
      var n := |r|;
      var h: nat := head;
      ghost var items := Contents;
      assert |items| < n;
      var p: nat := h;
      var j: nat := 0;
      itemsFreed := [];
      while (if p + 1 == n then 0 else p + 1) != h
        invariant j < n && p == Wrap(h + j, n)
        invariant itemsFreed == if freeElems then Segment(r, h, j) else []
        decreases n - j
      {
        if freeElems {
          SegmentAt(r, h, j + 1, j);
          assert Segment(r, h, j + 1) == Segment(r, h, j) + [r[p]];
          itemsFreed := itemsFreed + [r[p]];
        }
        p := if p + 1 == n then 0 else p + 1;
        j := j + 1;
      }
      assert j == n - 1;
      if freeElems {
        SegmentAt(r, h, j + 1, j);
        assert Segment(r, h, j + 1) == Segment(r, h, j) + [r[p]];
        itemsFreed := itemsFreed + [r[p]];
        forall i | 0 <= i < |items|
          ensures itemsFreed[i] == items[i]
        {
          SegmentAt(r, h, n, i);
          SegmentAt(r, h, |items|, i);
        }
        assert itemsFreed[..|items|] == items;
      }
      nodesFreed := j + 1;
      ring := [];
      head, tail := NULL_NODE, NULL_NODE;
      var _ := nElements.Destroy();
    }
  }

  /**
   * Items come out in the order they went in: enqueue every item of `xs` onto an empty
   * queue, then dequeue as many; the ring grows past its 17 nodes as needed.
   */
  method FifoOrder<T>(q: Tailq<T>, xs: seq<Option<T>>) returns (out: seq<Option<T>>)
    requires q.Valid() && q.Contents == []
    modifies q, q.nElements
    ensures q.Valid() && q.Contents == []
    ensures out == xs
    ensures |q.ring| >= |xs| + 1
  {
    for i := 0 to |xs|
      invariant q.Valid() && q.Contents == xs[..i]
    {
      q.Enqueue(xs[i]);
    }
    assert xs[..|xs|] == xs;
    assert |q.ring| >= |xs| + 1 by {
      assert Dist(q.head, q.tail, |q.ring|) == |xs|;
    }
    ghost var size := |q.ring|;
    out := [];
    for i := 0 to |xs|
      invariant q.Valid() && q.Contents == xs[i..] && out == xs[..i] && |q.ring| == size
    {
      var x := q.Dequeue();
      out := out + [x];
    }
  }

  /**
   * Dequeue leaves the item in its node, so a later destroy with `free_elems` frees it
   * as well: a caller that frees what it dequeued sees the item freed a second time.
   */
  method DequeuedItemFreedAgain<T>(q: Tailq<T>, x: T) returns (y: Option<T>, itemsFreed: seq<Option<T>>)
    requires q.Valid() && q.Contents == []
    modifies q, q.nElements
    ensures y == Some(x) && Some(x) in itemsFreed
  {
    q.Enqueue(Some(x));
    ghost var h := q.head;
    SegmentAt(q.ring, h, 1, 0);
    y := q.Dequeue();
    SegmentWhole(q.ring, q.head, h);
    var _, freed, _ := q.Destroy(true);
    itemsFreed := freed;
  }
}
