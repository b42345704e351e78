/** The deferred-write priority queue of lib/sdcard.h and spi_flash/old_spiflash.cpp:
    entries (priority, size, data pointer) ordered by a comparator under which the
    entry with the numerically smallest priority is served first. */
module IoQueue {

  /** Priority levels, from most to least important. */
  const PMandatory: int := 0
  const PUrgent: int := 1
  const PImportant: int := 2
  const PStd: int := 3
  const PUnimportant: int := 4
  const POptional: int := 5

  /** One queued write. `data` is the caller's pointer, kept as is: the queue borrows the
      caller's bytes and does not copy them. */
  datatype QueuedWrite = QueuedWrite(priority: int, size: nat, data: array?<bv8>)

  /** cmp_io_priority / CmpOPriority: `a` ranks below `b` in the heap when a.priority > b.priority. */
  predicate CmpIoPriority(a: QueuedWrite, b: QueuedWrite)
  {
    a.priority > b.priority
  }

  /** The comparator is a strict weak ordering, as std::priority_queue requires. */
  lemma CmpIoPriorityIsStrictWeakOrder(a: QueuedWrite, b: QueuedWrite, c: QueuedWrite)
    ensures !CmpIoPriority(a, a)
    ensures CmpIoPriority(a, b) && CmpIoPriority(b, c) ==> CmpIoPriority(a, c)
    ensures CmpIoPriority(a, b) ==> !CmpIoPriority(b, a)
    ensures !CmpIoPriority(a, b) && !CmpIoPriority(b, a) && !CmpIoPriority(b, c) && !CmpIoPriority(c, b)
            ==> !CmpIoPriority(a, c) && !CmpIoPriority(c, a)
  {
  }

  /** An entry std::priority_queue may expose at top(): nothing in the queue ranks above it. */
  ghost predicate IsTop(q: seq<QueuedWrite>, t: QueuedWrite)
  {
    t in q && forall x :: x in q ==> !CmpIoPriority(t, x)
  }

  /** The top of the queue is an entry with the smallest priority value. */
  lemma TopHasLeastPriority(q: seq<QueuedWrite>, t: QueuedWrite)
    ensures IsTop(q, t) <==> t in q && forall x :: x in q ==> t.priority <= x.priority
  {
  }

  /** The first-queued entry among those with the smallest priority value. */
  function Top(q: seq<QueuedWrite>): (t: QueuedWrite)
    requires q != []
    ensures t in q
    ensures forall x :: x in q ==> t.priority <= x.priority
  {
    if |q| == 1 then q[0]
    else
      var rest := Top(q[1..]);
      assert forall x :: x in q ==> x == q[0] || x in q[1..];
      if q[0].priority <= rest.priority then q[0] else rest
  }

  /** Queuing an entry of a strictly smaller priority value than everything queued makes it
      the only possible top. */
  lemma {:induction false} UrgentEntryBecomesTop(q: seq<QueuedWrite>, e: QueuedWrite, t: QueuedWrite)
    requires forall x :: x in q ==> e.priority < x.priority
    requires IsTop(q + [e], t)
    ensures t == e
  {
    assert e in q + [e];
    assert !CmpIoPriority(t, e);
    assert t !in q;
  }

  /** Every non-empty queue has an entry to serve. */
  lemma TopIsServable(q: seq<QueuedWrite>)
    requires q != []
    ensures IsTop(q, Top(q))
  {
  }
}
