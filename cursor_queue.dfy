/**
 * `Queue<char>` of Queue.h: a ring with monotone push and pop cursors,
 * holding single characters (`push(const T&)`, `pop(T&)`) and
 * NUL-terminated strings (`push(T*)`, `pop(T*)`). The atomic cursors are
 * read and stored once per operation, so each operation is one step here.
 *
 * The live characters are `Contents()`; they make sense while the cursors
 * are at most a capacity apart (`Intact()`), which the string push does not
 * enforce (its free-space check is commented out).
 */
module CursorQueue {
  import opened NumberTheory
  import opened Wrappers
  import opened RingMath

  /** The character the string pop leaves in place of every one it copied. */
  const CONSUMED: char := '0'

  /** `strlen(s)`: the index of the first NUL. */
  function Strlen(s: seq<char>): (r: nat)
    requires '\0' in s
    ensures r < |s| && s[r] == '\0' && '\0' !in s[..r]
  {
    if s[0] == '\0' then 0
    else
      assert s == [s[0]] + s[1..];
      1 + Strlen(s[1..])
  }

  /** How many characters the string pop copies out, as written. */
  function PopCountAsWritten(cap: nat, pop: nat, push: nat): nat
    requires cap > 0
  {
    if push < cap then push % cap else (cap - pop % cap) + push % cap
  }

  /** Where the string pop leaves the pop cursor, as written. The unsigned
      `pop % cap - push % cap` may wrap below zero, but `cap` minus it then
      wraps back, so the sum is the integer one below. */
  function PopAdvanceAsWritten(cap: nat, pop: nat, push: nat): int
    requires cap > 0
  {
    if push < cap then pop + push
    else pop + (cap - (pop % cap - push % cap))
  }

  /** The string pop as written is right exactly when the pop cursor is 0 on
      the first lap, or when the live characters reach or cross the end of
      the ring; otherwise it copies and skips characters that are not live. */
  lemma PopAsWrittenCorrectIff(cap: nat, pop: nat, push: nat)
    requires cap > 0 && pop < push <= pop + cap
    ensures var right := if push < cap then pop == 0 else pop % cap >= push % cap;
      (PopAdvanceAsWritten(cap, pop, push) == push <==> right) &&
      (PopCountAsWritten(cap, pop, push) == push - pop <==> right)
  {
    if push >= cap {
      var k := push - pop;
      if pop % cap + k < cap {
        DivModUnique(push, cap, pop / cap, pop % cap + k);
      } else {
        DivModUnique(push, cap, pop / cap + 1, pop % cap + k - cap);
      }
    } else {
      assert push % cap == push;
    }
  }

  /** Capacity 8, pop cursor 2, push cursor 4: two characters are live, four
      are copied and the pop cursor jumps to 6, past the push cursor.
      Capacity 8, pop cursor 9, push cursor 11: two are live, ten are copied
      and the pop cursor jumps to 19. */
  lemma PopAsWrittenOvershoots()
    ensures PopCountAsWritten(8, 2, 4) == 4 && PopAdvanceAsWritten(8, 2, 4) == 6
    ensures PopCountAsWritten(8, 9, 11) == 10 && PopAdvanceAsWritten(8, 9, 11) == 19
  {
  }

  class Queue {
    const capacity: nat
    const ring: array<char>
    var pushCursor: nat
    var popCursor: nat

    /** The asserted `popCursor <= pushCursor`; a ring of capacity 0 is always
        both full and empty. */
    ghost predicate Valid()
      reads this
    {
      ring.Length == capacity && popCursor <= pushCursor && (capacity == 0 ==> pushCursor == popCursor)
    }

    /** The cursors are at most a capacity apart, so no live character has
        been overwritten. */
    predicate Intact()
      reads this
    {
      pushCursor <= popCursor + capacity
    }

    /** The live characters, oldest first. */
    function Contents(): (r: seq<char>)
      reads this, ring
      requires Valid() && Intact()
      ensures |r| == pushCursor - popCursor
    {
      RingRead(ring[..], popCursor, pushCursor - popCursor)
    }

    /** `Queue(capacity)`: both cursors at 0; the ring's initial characters
        are whatever the allocator returns. */
    constructor (capacity: nat, initial: char)
      ensures Valid() && Intact() && Contents() == [] && fresh(ring)
      ensures this.capacity == capacity
    {
      this.capacity := capacity;
      ring := new char[capacity](_ => initial);
      pushCursor := 0;
      popCursor := 0;
    }

    function Size(): (r: nat)
      reads this
      requires Valid()
      ensures Intact() <==> r <= capacity
      ensures Intact() ==> r == |Contents()|
    {
      pushCursor - popCursor
    }

    function Empty(): (r: bool)
      reads this
      requires Valid()
      ensures r ==> Intact()
      ensures Intact() ==> (r <==> Contents() == [])
    {
      Size() == 0
    }

    function Full(): (r: bool)
      reads this
      requires Valid()
      ensures Intact() ==> (r <==> |Contents()| == capacity)
    {
      Size() == capacity
    }

    /** `element(cursor)`: the index of a cursor, always inside the ring. */
    function Element(cursor: nat): (r: nat)
      reads this
      requires Valid() && capacity > 0
      ensures r < ring.Length
    {
      cursor % capacity
    }

    /** `push(const T&)`: nothing when full, otherwise the value is stored at
        the push cursor's index and the push cursor advances by one. */
    method Push(value: char)
      requires Valid()
      modifies this, ring
      ensures Valid() && popCursor == old(popCursor)
      ensures old(Full()) ==> pushCursor == old(pushCursor) && ring[..] == old(ring[..])
      ensures !old(Full()) ==>
        pushCursor == old(pushCursor) + 1 && ring[..] == old(ring[..])[old(pushCursor) % capacity := value]
      ensures old(Intact()) ==> Intact()
      ensures old(Intact()) && !old(Full()) ==> Contents() == old(Contents()) + [value]
      ensures old(Intact()) && old(Full()) ==> Contents() == old(Contents())
    {
      if Size() == capacity {
        return;
      }
      if Size() < capacity {
        RingAppend(ring[..], popCursor, pushCursor, [value]);
      }
      RingWriteOne(ring[..], pushCursor, value);
      ring[Element(pushCursor)] := value;
      pushCursor := pushCursor + 1;
    }

    /** `pop(T&)`: nothing when empty, otherwise the character at the pop
        cursor is handed out and the pop cursor advances by one. */
    method Pop() returns (r: Option<char>)
      requires Valid()
      modifies this
      ensures Valid() && pushCursor == old(pushCursor)
      ensures r.None? <==> old(Empty())
      ensures r.None? ==> popCursor == old(popCursor)
      ensures r.Some? ==> r.value == ring[old(popCursor) % capacity] && popCursor == old(popCursor) + 1
      ensures old(Intact()) ==> Intact()
      ensures old(Intact()) && r.Some? ==> r.value == old(Contents())[0] && Contents() == old(Contents())[1..]
    {
      if pushCursor == popCursor {
        return None;
      }
      r := Some(ring[Element(popCursor)]);
      if Intact() {
        RingReadAdvance(ring[..], popCursor, pushCursor - popCursor);
      }
      popCursor := popCursor + 1;
    }

    /** `push(T*)`: nothing when full, otherwise the string and its NUL are
        written at the push cursor, wrapping to index 0, and the push cursor
        advances by their length. Free space is not checked: a string longer
        than the free space overwrites the oldest live characters. */
    method PushCString(value: seq<char>)
      requires Valid() && '\0' in value
      requires Full() || Strlen(value) + 1 <= capacity
      modifies this, ring
      ensures Valid() && popCursor == old(popCursor)
      ensures old(Full()) ==> pushCursor == old(pushCursor) && ring[..] == old(ring[..])
      ensures !old(Full()) ==>
        var len := Strlen(value) + 1;
        pushCursor == old(pushCursor) + len && ring[..] == RingWrite(old(ring[..]), old(pushCursor), value[..len])
      ensures old(Size()) + Strlen(value) + 1 <= capacity ==>
        Intact() && Contents() == old(Contents()) + value[..Strlen(value) + 1]
      ensures !old(Full()) && old(Size()) + Strlen(value) + 1 > capacity ==> !Intact()
    {
      if Size() == capacity {
        return;
      }
      var len := Strlen(value) + 1;
      if Size() + len <= capacity {
        RingAppend(ring[..], popCursor, pushCursor, value[..len]);
      }
      RingCopyIn(ring, pushCursor, value[..len]);
      pushCursor := pushCursor + len;
    }

    /** `push(T*)` with its commented-out check restored: a string that does
        not fit the free space is refused whole. */
    method PushCStringChecked(value: seq<char>)
      requires Valid() && Intact() && '\0' in value
      modifies this, ring
      ensures Valid() && Intact() && popCursor == old(popCursor)
      ensures Contents() == if !old(Full()) && old(Size()) + Strlen(value) + 1 <= capacity
                            then old(Contents()) + value[..Strlen(value) + 1] else old(Contents())
    {
      if Size() == capacity {
        return;
      }
      var len := Strlen(value) + 1;
      if len > capacity - Size() {
        return;
      }
      RingAppend(ring[..], popCursor, pushCursor, value[..len]);
      RingCopyIn(ring, pushCursor, value[..len]);
      pushCursor := pushCursor + len;
    }

    /** `pop(T*)` as evidently intended: copy exactly the live characters to
        the front of `value`, overwrite each with '0', and move the pop
        cursor to the push cursor. */
    method PopCString(value: array<char>)
      requires Valid() && Intact() && value.Length >= Size() && value != ring
      modifies this, ring, value
      ensures Valid() && Intact() && Contents() == [] && pushCursor == old(pushCursor)
      ensures value[..old(Size())] == old(Contents())
      ensures value[old(Size())..] == old(value[..])[old(Size())..]
      ensures ring[..] == RingWrite(old(ring[..]), old(popCursor), seq(old(Size()), _ => CONSUMED))
    {
      if pushCursor == popCursor {
        assert ring[..] == RingWrite(ring[..], popCursor, seq(0, _ => CONSUMED));
        return;
      }
      var len := pushCursor - popCursor;
      RingCopyOut(ring, popCursor, len, value, CONSUMED);
      popCursor := popCursor + len;
    }

    /** `~Queue()`: destroy the live characters one by one from the pop
        cursor; returns them in the order destroyed. */
    method Destroy() returns (destroyed: seq<char>)
      requires Valid()
      modifies this
      ensures Valid() && popCursor == pushCursor
      ensures capacity > 0 ==> destroyed == RingRead(ring[..], old(popCursor), old(pushCursor) - old(popCursor))
      ensures old(Intact()) ==> destroyed == old(Contents())
    {
      destroyed := [];
      while popCursor != pushCursor
        invariant Valid() && old(popCursor) <= popCursor <= pushCursor == old(pushCursor)
        invariant capacity > 0 ==> destroyed == RingRead(ring[..], old(popCursor), popCursor - old(popCursor))
        invariant capacity == 0 ==> destroyed == []
        decreases pushCursor - popCursor
      {
        destroyed := destroyed + [ring[Element(popCursor)]];
        popCursor := popCursor + 1;
      }
    }
  }
}
