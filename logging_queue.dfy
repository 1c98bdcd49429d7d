/**
 * `logging::Queue<char>` (include/log/queue.h): a single-threaded byte ring
 * with two monotone cursors. `push` copies a run of bytes in at the push
 * cursor, `pop` copies every live byte out, overwrites it with '0' and
 * catches the pop cursor up with the push cursor.
 *
 * The live bytes are `Contents()`, read from the ring between the cursors;
 * they make sense while the cursors are at most a capacity apart
 * (`Intact()`), which `push` does not enforce (see `Push`).
 */
module LoggingQueue {
  import opened NumberTheory
  import opened RingMath

  /** The byte `pop` leaves in place of every byte it copied out. */
  const CONSUMED: char := '0'

  /** The length `pop` copies out, as written: when the pop cursor equals the
      capacity the unreduced push cursor is used. */
  function DrainLengthAsWritten(cap: nat, pop: nat, push: nat): int
    requires cap > 0
  {
    if push < cap then push - pop
    else
      var realPush := if pop > cap then push % cap else push;
      var realPop := pop % cap;
      if realPush > realPop then realPush - realPop else cap - realPop + realPush
  }

  /** The length `pop` copies out, with the push cursor reduced whenever the
      pop cursor has completed a lap. */
  function DrainLength(cap: nat, pop: nat, push: nat): int
    requires cap > 0
  {
    if push < cap then push - pop
    else
      var realPush := if pop >= cap then push % cap else push;
      var realPop := pop % cap;
      if realPush > realPop then realPush - realPop else cap - realPop + realPush
  }

  /** `pop` drains exactly the live bytes. */
  lemma DrainLengthIsSize(cap: nat, pop: nat, push: nat)
    requires cap > 0 && pop < push <= pop + cap
    ensures DrainLength(cap, pop, push) == push - pop
  {
    if push >= cap {
      var q, r, k := pop / cap, pop % cap, push - pop;
      assert pop == q * cap + r;
      if pop < cap {
        DivModUnique(pop, cap, 0, pop);
      } else if r + k < cap {
        DivModUnique(push, cap, q, r + k);
      } else {
        assert (q + 1) * cap == q * cap + cap;
        DivModUnique(push, cap, q + 1, r + k - cap);
      }
    }
  }

  /** The code as written drains the live bytes in every state but one: a
      pop cursor standing exactly at the capacity. */
  lemma DrainLengthAsWrittenAgrees(cap: nat, pop: nat, push: nat)
    requires cap > 0 && pop < push <= pop + cap
    ensures DrainLengthAsWritten(cap, pop, push) == push - pop <==> pop != cap
  {
    DrainLengthIsSize(cap, pop, push);
    if pop == cap {
      assert DrainLengthAsWritten(cap, pop, push) == push;
    }
  }

  /** With capacity 4, pop cursor 4 and push cursor 6, two bytes are live but
      six are copied: `flush` allocates two and `pop` writes six into them. */
  lemma DrainLengthAsWrittenOverruns()
    ensures DrainLengthAsWritten(4, 4, 6) == 6
    ensures DrainLength(4, 4, 6) == 2
  {
  }

  /** Capacity 4 holding the live bytes "ab" at cursors 0 and 1: a push of
      the three bytes "cde" at cursor 2, one more than the free space, wraps
      and overwrites 'a', the oldest byte not yet popped. */
  lemma PushOverwritesUnread()
    ensures RingRead(RingWrite(['a', 'b', 'x', 'x'], 2, ['c', 'd', 'e']), 0, 2) == ['e', 'b']
  {
  }

  class Queue {
    const capacity: nat
    const ring: array<char>
    var pushCursor: nat
    var popCursor: nat

    ghost predicate Valid()
      reads this
    {
      ring.Length == capacity && popCursor <= pushCursor && (capacity == 0 ==> pushCursor == popCursor)
    }

    /** The cursors are at most a capacity apart, so no live byte has been
        overwritten. */
    predicate Intact()
      reads this
    {
      pushCursor <= popCursor + capacity
    }

    /** The live bytes, oldest first. */
    function Contents(): (r: seq<char>)
      reads this, ring
      requires Valid() && Intact()
      ensures |r| == pushCursor - popCursor
    {
      RingRead(ring[..], popCursor, pushCursor - popCursor)
    }

    /** `Queue(capacity)`: both cursors at 0; the ring's initial bytes are
        whatever the allocator returns. */
    constructor (capacity: nat, initial: char)
      ensures Valid() && Intact() && Contents() == [] && fresh(ring)
      ensures this.capacity == capacity
    {
      this.capacity := capacity;
      ring := new char[capacity](_ => initial);
      pushCursor := 0;
      popCursor := 0;
    }

    function Size(): (r: nat)
      reads this
      requires Valid()
      ensures Intact() <==> r <= capacity
      ensures Intact() ==> r == |Contents()|
    {
      pushCursor - popCursor
    }

    function Empty(): (r: bool)
      reads this
      requires Valid()
      ensures r ==> Intact()
      ensures Intact() ==> (r <==> Contents() == [])
    {
      Size() == 0
    }

    function Full(): (r: bool)
      reads this
      requires Valid()
      ensures Intact() ==> (r <==> |Contents()| == capacity)
    {
      Size() == capacity
    }

    /** `element(cursor)`: the index of a cursor, always inside the ring. */
    function Element(cursor: nat): (r: nat)
      reads this
      requires Valid() && capacity > 0
      ensures r < ring.Length
    {
      cursor % capacity
    }

    /** `push(value, len)`: nothing on a full ring, otherwise the first `len`
        bytes of `value` are written at the push cursor, wrapping to index 0,
        and the push cursor advances by `len`. Free space is not checked: a
        run longer than the free space overwrites the oldest live bytes. */
    method Push(value: seq<char>, len: nat)
      requires Valid() && len <= |value|
      requires Size() == capacity || len <= capacity
      modifies this, ring
      ensures Valid() && popCursor == old(popCursor)
      ensures old(Size()) == capacity ==> pushCursor == old(pushCursor) && ring[..] == old(ring[..])
      ensures old(Size()) != capacity ==>
        pushCursor == old(pushCursor) + len && ring[..] == RingWrite(old(ring[..]), old(pushCursor), value[..len])
      ensures old(Size()) + len <= capacity ==> Intact() && Contents() == old(Contents()) + value[..len]
      ensures old(Size()) != capacity && old(Size()) + len > capacity ==> !Intact()
    {
      if Size() == capacity {
        return;
      }
      if Size() + len <= capacity {
        RingAppend(ring[..], popCursor, pushCursor, value[..len]);
      }
      RingCopyIn(ring, pushCursor, value[..len]);
      pushCursor := pushCursor + len;
    }

    /** `push` with the free-space check it lacks: a run that does not fit is
        refused whole, so the live bytes are never overwritten. */
    method PushChecked(value: seq<char>, len: nat)
      requires Valid() && Intact() && len <= |value|
      modifies this, ring
      ensures Valid() && Intact() && popCursor == old(popCursor)
      ensures Contents() == if old(Size()) + len <= capacity && old(Size()) != capacity
                            then old(Contents()) + value[..len] else old(Contents())
    {
      if Size() == capacity || len > capacity - Size() {
        return;
      }
      RingAppend(ring[..], popCursor, pushCursor, value[..len]);
      RingCopyIn(ring, pushCursor, value[..len]);
      pushCursor := pushCursor + len;
    }

    /** `pop(value)`: copy every live byte to the front of `value`, overwrite
        each with '0' and move the pop cursor to the push cursor. Uses
        `DrainLength`, the reduced push cursor. */
    method Pop(value: array<char>)
      requires Valid() && Intact() && value.Length >= Size() && value != ring
      modifies this, ring, value
      ensures Valid() && Intact() && Contents() == [] && pushCursor == old(pushCursor)
      ensures value[..old(Size())] == old(Contents())
      ensures value[old(Size())..] == old(value[..])[old(Size())..]
      ensures ring[..] == RingWrite(old(ring[..]), old(popCursor), seq(old(Size()), _ => CONSUMED))
    {
      if pushCursor == popCursor {
        assert ring[..] == RingWrite(ring[..], popCursor, seq(0, _ => CONSUMED));
        return;
      }
      if pushCursor < capacity {
        RingCopyOut(ring, popCursor, pushCursor - popCursor, value, CONSUMED);
        popCursor := popCursor + (pushCursor - popCursor);
      } else {
        var len := DrainLength(capacity, popCursor, pushCursor);
        DrainLengthIsSize(capacity, popCursor, pushCursor);
        RingCopyOut(ring, popCursor, len, value, CONSUMED);
        popCursor := popCursor + len;
      }
    }

    /** `flush()`: a new buffer of exactly `size()` bytes holding every live
        byte, oldest first; the ring is left empty. */
    method Flush(initial: char) returns (out: array<char>)
      requires Valid() && Intact()
      modifies this, ring
      ensures fresh(out) && out[..] == old(Contents())
      ensures Valid() && Intact() && Contents() == []
    {
      out := new char[Size()](_ => initial);
      Pop(out);
    }
  }
}
