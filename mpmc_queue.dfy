/**
 * The bounded multi-producer multi-consumer ticket queue
 * (include/log/mpmc_queue.h).
 *
 * Producers take tickets from `pushTicket` and consumers from `popTicket`.
 * Ticket t uses slot `(t * stride) % capacity + padding` of an array of
 * `capacity + 2 * padding` single-element slots, on its lap `t / capacity`.
 * Each slot carries a turn sequencer word: lap l may enqueue on sequencer
 * turn 2l and dequeue on turn 2l + 1, so a slot strictly alternates between
 * holding and not holding an element.
 *
 * Every operation is one atomic step of a single thread; a wait for a slot's
 * turn becomes a precondition that the turn has come. `Window` is the
 * invariant that ties the slot array to the abstract FIFO contents.
 */
module Mpmc {
  import opened Bits
  import opened Wrappers
  import opened NumberTheory
  import opened TurnSequencer

  const SMALL_PRIMES: seq<nat> := [2, 3, 5, 7, 11, 13, 17, 19, 23]
  /** `kAdaptationFreq`: one ticket in 128 re-measures the spin cutoff. */
  const ADAPTATION_FREQ: nat := 128
  const HARDWARE_DESTRUCTIVE_INTERFERENCE_SIZE: nat := 64

  /** `kSlotPadding` for slots of `slotBytes` bytes: enough slots to fill a
      cache line, at least one. */
  function SlotPadding(slotBytes: nat): (r: nat)
    requires slotBytes > 0
    ensures r >= 1
    ensures (r - 1) * slotBytes <= HARDWARE_DESTRUCTIVE_INTERFERENCE_SIZE - 1 < r * slotBytes
  {
    (HARDWARE_DESTRUCTIVE_INTERFERENCE_SIZE - 1) / slotBytes + 1
  }

  // ---------------------------------------------------------------------------
  // Choice of the stride

  /** A prime the stride may be: it neither is a multiple of the capacity nor
      divides it. */
  predicate Eligible(s: nat, cap: nat)
    requires cap > 0
  {
    s > 0 && s % cap != 0 && cap % s != 0
  }

  /** How far apart consecutive tickets land, measured around the ring. */
  function Sep(s: nat, cap: nat): nat
    requires cap > 0
  {
    Min(s % cap, cap - s % cap)
  }

  /** The separation recorded for a chosen stride: 1 for the default stride. */
  function StrideSep(stride: nat, cap: nat): nat
    requires cap > 0
  {
    if stride == 1 then 1 else Sep(stride, cap)
  }

  lemma SmallPrimesSorted()
    ensures forall i, j :: 0 <= i < j < |SMALL_PRIMES| ==> SMALL_PRIMES[i] < SMALL_PRIMES[j]
  {
  }

  /** `computeStride(capacity)`: the listed prime with the largest separation
      (the first one on ties), or 1 when none separates by more than 1. */
  method ComputeStride(cap: nat) returns (stride: nat)
    requires cap > 0
    ensures stride == 1 || (stride in SMALL_PRIMES && Eligible(stride, cap))
    ensures forall i :: 0 <= i < |SMALL_PRIMES| && Eligible(SMALL_PRIMES[i], cap)
                        ==> Sep(SMALL_PRIMES[i], cap) <= StrideSep(stride, cap)
    ensures stride != 1 ==> Sep(stride, cap) > 1
    ensures forall i :: 0 <= i < |SMALL_PRIMES| && SMALL_PRIMES[i] < stride && Eligible(SMALL_PRIMES[i], cap)
                        ==> Sep(SMALL_PRIMES[i], cap) < Sep(stride, cap)
  {
    SmallPrimesSorted();
    var bestStride := 1;
    var bestSep := 1;
    for k := 0 to |SMALL_PRIMES|
      invariant bestStride == 1 || (bestStride in SMALL_PRIMES[..k] && Eligible(bestStride, cap))
      invariant bestSep == StrideSep(bestStride, cap)
      invariant bestStride != 1 ==> bestSep > 1
      invariant forall i :: 0 <= i < k && Eligible(SMALL_PRIMES[i], cap) ==> Sep(SMALL_PRIMES[i], cap) <= bestSep
      invariant forall i :: 0 <= i < |SMALL_PRIMES| && SMALL_PRIMES[i] < bestStride && Eligible(SMALL_PRIMES[i], cap)
                           ==> Sep(SMALL_PRIMES[i], cap) < bestSep
    {
      var s := SMALL_PRIMES[k];
      if s % cap == 0 || cap % s == 0 {
        continue;
      }
      var sep := s % cap;
      sep := Min(sep, cap - sep);
      if sep > bestSep {
        bestStride := s;
        bestSep := sep;
      }
    }
    stride := bestStride;
  }

  /** Whatever `computeStride` picks is coprime with the capacity. */
  lemma StrideCoprime(stride: nat, cap: nat)
    requires cap > 0
    requires stride == 1 || (stride in SMALL_PRIMES && Eligible(stride, cap))
    ensures Gcd(stride, cap) == 1
  {
    if stride == 1 {
      OneCoprime(cap);
    } else {
      SmallPrimesArePrime();
      PrimeCoprime(stride, cap);
    }
  }

  // ---------------------------------------------------------------------------
  // Ticket arithmetic

  /** `idx(ticket, cap, stride)`: the slot of a ticket, past the leading padding. */
  function Idx(ticket: nat, cap: nat, stride: nat, padding: nat): (r: nat)
    requires cap > 0
    ensures padding <= r < padding + cap
  {
    (ticket * stride) % cap + padding
  }

  /** `turn(ticket, cap)`: the lap of a ticket, truncated to 32 bits. */
  function Turn(ticket: nat, cap: nat): u32
    requires cap > 0
  {
    (ticket / cap) % TWO_32
  }

  /** Any `cap` consecutive tickets use `cap` distinct slots. */
  lemma WindowInjective(cap: nat, stride: nat, padding: nat, a: nat, b: nat)
    requires cap > 0 && Gcd(stride, cap) == 1
    requires a < b < a + cap
    ensures Idx(a, cap, stride, padding) != Idx(b, cap, stride, padding)
  {
    MulModInjective(stride, cap, a, b);
  }

  /** The ticket one lap later uses the same slot on the next turn. */
  lemma NextLap(t: nat, cap: nat, stride: nat, padding: nat)
    requires cap > 0
    ensures Idx(t + cap, cap, stride, padding) == Idx(t, cap, stride, padding)
    ensures Turn(t + cap, cap) == (Turn(t, cap) + 1) % TWO_32
  {
    var m := t * stride;
    assert (t + cap) * stride == m + cap * stride;
    assert m == (m / cap) * cap + m % cap;
    DivModUnique((t + cap) * stride, cap, m / cap + stride, m % cap);
    var l := t / cap;
    assert t == l * cap + t % cap;
    DivModUnique(t + cap, cap, l + 1, t % cap);
    ModSucc(l, TWO_32);
  }

  // ---------------------------------------------------------------------------
  // Single-element slots

  /** `SingleElementQueue`: the element it may hold and its sequencer word. */
  datatype Slot<T> = Slot(contents: Option<T>, state: u32)

  /** The sequencer turn an enqueue on lap `turn` waits for (`turn * 2`). */
  function EnqueueTurn(turn: u32): u32
  {
    (turn * 2) % TWO_32
  }

  /** The sequencer turn a dequeue on lap `turn` waits for (`turn * 2 + 1`). */
  function DequeueTurn(turn: u32): u32
  {
    (turn * 2 + 1) % TWO_32
  }

  /** Enqueue turns are even, dequeue turns odd; completing one gives the other,
      and completing a dequeue gives the enqueue turn of the next lap. */
  lemma TurnParity(turn: u32)
    ensures EnqueueTurn(turn) % 2 == 0 && DequeueTurn(turn) % 2 == 1
    ensures (EnqueueTurn(turn) + 1) % TWO_32 == DequeueTurn(turn)
    ensures (DequeueTurn(turn) + 1) % TWO_32 == EnqueueTurn((turn + 1) % TWO_32)
  {
    // Below 2^31 nothing wraps; from 2^31 on, one lap of 2^32 is dropped.
    var lap := if turn < 0x8000_0000 then 0 else 1;
    var e := turn * 2 - lap * TWO_32;
    DivModUnique(turn * 2, TWO_32, lap, e);
    DivModUnique(turn * 2 + 1, TWO_32, lap, e + 1);
    DivModUnique(e + 1, TWO_32, 0, e + 1);
    DivModUnique(e, 2, turn - lap * 0x8000_0000, 0);
    DivModUnique(e + 1, 2, turn - lap * 0x8000_0000, 1);
    if turn < TWO_32 - 1 {
      DivModUnique(turn + 1, TWO_32, 0, turn + 1);
      if turn < 0x7FFF_FFFF {
        DivModUnique(turn * 2 + 2, TWO_32, 0, e + 2);
      } else if turn == 0x7FFF_FFFF {
        DivModUnique(turn * 2 + 2, TWO_32, 1, 0);
        DivModUnique(e + 2, TWO_32, 1, 0);
      } else {
        DivModUnique((turn + 1) * 2, TWO_32, 1, e + 2);
        DivModUnique(e + 2, TWO_32, 0, e + 2);
      }
    } else {
      DivModUnique(turn + 1, TWO_32, 1, 0);
      DivModUnique(e + 2, TWO_32, 1, 0);
    }
  }

  /** Sequencer turns of different parity never share a shifted turn. */
  lemma ParityApart(a: u32, b: u32)
    requires a % 2 != b % 2
    ensures ShiftTurn(a) != ShiftTurn(b)
  {
    ShiftTurnInjective(a, b);
  }

  /** A word with no waiter bits is its own encoding. */
  lemma EncodeNoWaiters(sturn: u32)
    requires sturn % 64 == 0
    ensures Encode(sturn, 0) == sturn
  {
    DecodeEncode(sturn, 0);
  }

  /** The slot a default-constructed `SingleElementQueue` starts as: empty,
      on turn 0. */
  function FreshSlot<T>(): (r: Slot<T>)
    ensures r == Slot(None, 0)
  {
    EncodeNoWaiters(0);
    Slot(None, Encode(ShiftTurn(0), 0))
  }

  /** `mayEnqueue(turn)` */
  predicate MayEnqueue<T>(s: Slot<T>, turn: u32)
  {
    IsTurnState(s.state, EnqueueTurn(turn))
  }

  /** `mayDequeue(turn)` */
  predicate MayDequeue<T>(s: Slot<T>, turn: u32)
  {
    IsTurnState(s.state, DequeueTurn(turn))
  }

  /** `enqueueImpl` once its turn has come: store the element, complete the turn. */
  function Enqueued<T>(s: Slot<T>, turn: u32, x: T): Slot<T>
  {
    Slot(Some(x), CompletedState(s.state, EnqueueTurn(turn)))
  }

  /** `dequeueImpl` once its turn has come: move the element out, complete the turn. */
  function Dequeued<T>(s: Slot<T>, turn: u32): Slot<T>
  {
    Slot(None, CompletedState(s.state, DequeueTurn(turn)))
  }

  /** A slot alternates: it is never ready for both operations of one lap;
      an enqueue makes it ready for that lap's dequeue and no longer for the
      enqueue, and a dequeue makes it ready for the next lap's enqueue. */
  lemma {:induction false} SlotAlternation<T>(s: Slot<T>, turn: u32, x: T)
    ensures !(MayEnqueue(s, turn) && MayDequeue(s, turn))
    ensures MayEnqueue(s, turn) ==>
      MayDequeue(Enqueued(s, turn, x), turn) && !MayEnqueue(Enqueued(s, turn, x), turn)
    ensures MayDequeue(s, turn) ==>
      MayEnqueue(Dequeued(s, turn), (turn + 1) % TWO_32) && !MayDequeue(Dequeued(s, turn), turn)
  {
    TurnParity(turn);
    ParityApart(EnqueueTurn(turn), DequeueTurn(turn));
    if MayEnqueue(s, turn) {
      CompleteTurnAdvances(s.state, EnqueueTurn(turn));
    }
    if MayDequeue(s, turn) {
      CompleteTurnAdvances(s.state, DequeueTurn(turn));
    }
  }

  /** A slot in a consistent state has no waiter bits (nothing blocks in this
      model), and holds an element exactly when the low bit of its pending
      turn is odd, which is what its destructor tests. */
  predicate SlotConsistent<T>(s: Slot<T>)
  {
    s.state % 64 == 0 && (s.contents.Some? <==> UncompletedTurnLSB(s.state) % 2 == 1)
  }

  /** Every slot of the array is consistent. */
  ghost predicate AllConsistent<T>(cells: seq<Slot<T>>)
  {
    forall i :: 0 <= i < |cells| ==> SlotConsistent(cells[i])
  }

  /** The slot of a ticket that has been pushed but not popped. */
  function Full<T>(t: nat, cap: nat, x: T): Slot<T>
    requires cap > 0
  {
    Slot(Some(x), ShiftTurn(DequeueTurn(Turn(t, cap))))
  }

  /** The slot of a ticket not yet pushed. */
  function Empty<T>(t: nat, cap: nat): Slot<T>
    requires cap > 0
  {
    Slot(None, ShiftTurn(EnqueueTurn(Turn(t, cap))))
  }

  lemma ExpectedConsistent<T>(t: nat, cap: nat, x: T)
    requires cap > 0
    ensures SlotConsistent(Full(t, cap, x)) && SlotConsistent(Empty<T>(t, cap))
  {
    TurnParity(Turn(t, cap));
    ShiftTurnValue(DequeueTurn(Turn(t, cap)));
    ShiftTurnValue(EnqueueTurn(Turn(t, cap)));
    UncompletedTurnLSBOfShift(DequeueTurn(Turn(t, cap)));
    UncompletedTurnLSBOfShift(EnqueueTurn(Turn(t, cap)));
  }

  // ---------------------------------------------------------------------------
  // The invariant of the slot array

  /** The tickets `pop .. pop + cap - 1` own distinct slots; those already
      pushed hold the queued elements in order and wait for their dequeue
      turn, the others are empty and wait for their enqueue turn. */
  ghost predicate Window<T>(cells: seq<Slot<T>>, cap: nat, stride: nat, padding: nat,
                            pop: nat, push: nat, contents: seq<T>)
  {
    && cap > 0 && Gcd(stride, cap) == 1 && |cells| == cap + 2 * padding
    && pop <= push <= pop + cap && |contents| == push - pop
    && AllConsistent(cells)
    && (forall i :: 0 <= i < padding || padding + cap <= i < |cells| ==> cells[i] == FreshSlot<T>())
    && (forall t :: pop <= t < push ==>
          cells[Idx(t, cap, stride, padding)] == Full(t, cap, contents[t - pop]))
    && (forall t :: push <= t < pop + cap ==>
          cells[Idx(t, cap, stride, padding)] == Empty<T>(t, cap))
  }

  /** A new queue: every slot fresh, both tickets at 0. */
  lemma WindowInit<T>(cap: nat, stride: nat, padding: nat)
    requires cap > 0 && Gcd(stride, cap) == 1
    ensures Window(seq(cap + 2 * padding, _ => FreshSlot<T>()), cap, stride, padding, 0, 0, [])
  {
    var cells := seq(cap + 2 * padding, _ => FreshSlot<T>());
    assert Empty<T>(0, cap) == Slot(None, 0) by {
      assert EnqueueTurn(0) == 0 && ShiftTurn(0) == 0;
    }
    assert SlotConsistent(FreshSlot<T>());
    forall t | 0 <= t < cap
      ensures cells[Idx(t, cap, stride, padding)] == Empty<T>(t, cap)
    {
      DivModUnique(t, cap, 0, t);
      assert Turn(t, cap) == Turn(0, cap);
    }
  }

  /** An empty slot waits for its ticket's enqueue turn and not for its
      dequeue turn. */
  lemma EmptyReadiness<T>(t: nat, cap: nat)
    requires cap > 0
    ensures MayEnqueue(Empty<T>(t, cap), Turn(t, cap))
    ensures !MayDequeue(Empty<T>(t, cap), Turn(t, cap))
  {
    var turn := Turn(t, cap);
    TurnParity(turn);
    ShiftTurnValue(EnqueueTurn(turn));
    ParityApart(EnqueueTurn(turn), DequeueTurn(turn));
  }

  /** A full slot waits for its ticket's dequeue turn, and not for the
      enqueue turn of the ticket one lap later. */
  lemma FullReadiness<T>(t: nat, cap: nat, x: T)
    requires cap > 0
    ensures MayDequeue(Full(t, cap, x), Turn(t, cap))
    ensures !MayEnqueue(Full(t, cap, x), Turn(t + cap, cap))
  {
    var turn := Turn(t, cap);
    var dq := DequeueTurn(turn);
    var next := Turn(t + cap, cap);
    TurnParity(turn);
    ShiftTurnValue(dq);
    assert DecodeCurrentSturn(Full(t, cap, x).state) == ShiftTurn(dq);
    NextLap(t, cap, 1, 0);
    TurnParity(next);
    ParityApart(dq, EnqueueTurn(next));
  }

  /** The next push ticket's slot is ready for its enqueue turn exactly when
      the queue is not full. */
  lemma {:induction false} PushAdmission<T>(cells: seq<Slot<T>>, cap: nat, stride: nat, padding: nat,
                                            pop: nat, push: nat, contents: seq<T>)
    requires Window(cells, cap, stride, padding, pop, push, contents)
    ensures MayEnqueue(cells[Idx(push, cap, stride, padding)], Turn(push, cap)) <==> push - pop < cap
  {
    if push == pop + cap {
      NextLap(pop, cap, stride, padding);
      assert cells[Idx(pop, cap, stride, padding)] == Full(pop, cap, contents[0]);
      FullReadiness(pop, cap, contents[0]);
    } else {
      assert cells[Idx(push, cap, stride, padding)] == Empty<T>(push, cap);
      EmptyReadiness<T>(push, cap);
    }
  }

  /** The next pop ticket's slot is ready for its dequeue turn exactly when
      the queue is not empty. */
  lemma {:induction false} PopAdmission<T>(cells: seq<Slot<T>>, cap: nat, stride: nat, padding: nat,
                                           pop: nat, push: nat, contents: seq<T>)
    requires Window(cells, cap, stride, padding, pop, push, contents)
    ensures MayDequeue(cells[Idx(pop, cap, stride, padding)], Turn(pop, cap)) <==> pop < push
  {
    if pop < push {
      assert cells[Idx(pop, cap, stride, padding)] == Full(pop, cap, contents[0]);
      FullReadiness(pop, cap, contents[0]);
    } else {
      assert cells[Idx(pop, cap, stride, padding)] == Empty<T>(pop, cap);
      EmptyReadiness<T>(pop, cap);
    }
  }

  /** Enqueuing on the next push ticket keeps the invariant, with the element
      appended to the contents. */
  lemma {:induction false} EnqueuePreserves<T>(cells: seq<Slot<T>>, cap: nat, stride: nat, padding: nat,
                                               pop: nat, push: nat, contents: seq<T>, x: T)
    requires Window(cells, cap, stride, padding, pop, push, contents)
    requires push - pop < cap
    ensures var i := Idx(push, cap, stride, padding);
      Window(cells[i := Enqueued(cells[i], Turn(push, cap), x)], cap, stride, padding, pop, push + 1, contents + [x])
  {
    var i := Idx(push, cap, stride, padding);
    var turn := Turn(push, cap);
    var cells' := cells[i := Enqueued(cells[i], turn, x)];
    var contents' := contents + [x];
    assert cells[i] == Empty<T>(push, cap);
    ShiftTurnValue(EnqueueTurn(turn));
    TurnParity(turn);
    ShiftTurnValue(DequeueTurn(turn));
    EncodeNoWaiters(ShiftTurn(DequeueTurn(turn)));
    assert cells'[i] == Full(push, cap, x);
    ExpectedConsistent(push, cap, x);
    forall t | pop <= t < push + 1
      ensures cells'[Idx(t, cap, stride, padding)] == Full(t, cap, contents'[t - pop])
    {
      if t < push {
        WindowInjective(cap, stride, padding, t, push);
      }
    }
    forall t | push + 1 <= t < pop + cap
      ensures cells'[Idx(t, cap, stride, padding)] == Empty<T>(t, cap)
    {
      WindowInjective(cap, stride, padding, push, t);
    }
  }

  /** Dequeuing on the next pop ticket yields the first element and keeps the
      invariant, with that element removed. */
  lemma {:induction false} DequeuePreserves<T>(cells: seq<Slot<T>>, cap: nat, stride: nat, padding: nat,
                                               pop: nat, push: nat, contents: seq<T>)
    requires Window(cells, cap, stride, padding, pop, push, contents)
    requires pop < push
    ensures var i := Idx(pop, cap, stride, padding);
      cells[i].contents == Some(contents[0]) &&
      SlotConsistent(cells[i]) && SlotConsistent(Dequeued(cells[i], Turn(pop, cap))) &&
      Window(cells[i := Dequeued(cells[i], Turn(pop, cap))], cap, stride, padding, pop + 1, push, contents[1..])
  {
    var i := Idx(pop, cap, stride, padding);
    var turn := Turn(pop, cap);
    var cells' := cells[i := Dequeued(cells[i], turn)];
    var contents' := contents[1..];
    assert cells[i] == Full(pop, cap, contents[0]);
    NextLap(pop, cap, stride, padding);
    TurnParity(turn);
    ShiftTurnValue(DequeueTurn(turn));
    ShiftTurnValue(EnqueueTurn((turn + 1) % TWO_32));
    EncodeNoWaiters(ShiftTurn(EnqueueTurn((turn + 1) % TWO_32)));
    assert cells'[i] == Empty<T>(pop + cap, cap);
    ExpectedConsistent(pop + cap, cap, contents[0]);
    forall t | pop + 1 <= t < push
      ensures cells'[Idx(t, cap, stride, padding)] == Full(t, cap, contents'[t - (pop + 1)])
    {
      WindowInjective(cap, stride, padding, pop, t);
    }
    forall t | push <= t < pop + 1 + cap
      ensures cells'[Idx(t, cap, stride, padding)] == Empty<T>(t, cap)
    {
      if t < pop + cap {
        WindowInjective(cap, stride, padding, pop, t);
      }
    }
  }

  /** The slots of the `n` tickets from `from` on. */
  ghost function SlotsOf(cap: nat, stride: nat, padding: nat, from: nat, n: nat): set<nat>
    requires cap > 0
  {
    set t: nat | from <= t < from + n :: Idx(t, cap, stride, padding)
  }

  /** Up to `cap` consecutive tickets own as many distinct slots. */
  lemma {:induction false} SlotsOfCard(cap: nat, stride: nat, padding: nat, from: nat, n: nat)
    requires cap > 0 && Gcd(stride, cap) == 1 && n <= cap
    ensures |SlotsOf(cap, stride, padding, from, n)| == n
  {
    if n > 0 {
      var earlier := SlotsOf(cap, stride, padding, from, n - 1);
      var last := Idx(from + n - 1, cap, stride, padding);
      SlotsOfCard(cap, stride, padding, from, n - 1);
      forall t | from <= t < from + n - 1
        ensures Idx(t, cap, stride, padding) != last
      {
        WindowInjective(cap, stride, padding, t, from + n - 1);
      }
      assert last !in earlier;
      var all := SlotsOf(cap, stride, padding, from, n);
      forall x | x in all
        ensures x in earlier + {last}
      {
        var t :| from <= t < from + n && Idx(t, cap, stride, padding) == x;
        if t < from + n - 1 {
          assert x in earlier;
        }
      }
      forall x | x in earlier
        ensures x in all
      {
        var t :| from <= t < from + n - 1 && Idx(t, cap, stride, padding) == x;
      }
      assert last in all;
      assert all == earlier + {last};
      assert |earlier + {last}| == |earlier| + 1;
    }
  }

  /** A slot index between the paddings is the slot of ticket `i - padding`
      under stride 1, so those slots are the `cap` slots of the first `cap`
      tickets under stride 1. */
  lemma InnerSlot(cap: nat, padding: nat, i: nat)
    requires cap > 0 && padding <= i < padding + cap
    ensures Idx(i - padding, cap, 1, padding) == i
  {
    DivModUnique(i - padding, cap, 0, i - padding);
  }

  /** Any `cap` consecutive tickets own every slot between the paddings:
      `cap` distinct slots out of `cap`. */
  lemma WindowCovers(cap: nat, stride: nat, padding: nat, from: nat, i: nat)
    requires cap > 0 && Gcd(stride, cap) == 1 && padding <= i < padding + cap
    ensures exists t :: from <= t < from + cap && Idx(t, cap, stride, padding) == i
  {
    var owned := SlotsOf(cap, stride, padding, from, cap);
    var inner := SlotsOf(cap, 1, padding, 0, cap);
    SlotsOfCard(cap, stride, padding, from, cap);
    OneCoprime(cap);
    SlotsOfCard(cap, 1, padding, 0, cap);
    forall x | x in owned
      ensures x in inner
    {
      InnerSlot(cap, padding, x);
    }
    assert inner == owned + (inner - owned);
    InnerSlot(cap, padding, i);
    assert i in inner;
  }

  /** What the destructor of one slot destroys: the element it holds, which
      it finds by the odd low bit of its pending turn. */
  function HeldBy<T>(s: Slot<T>): (r: seq<T>)
    ensures SlotConsistent(s) ==> r == if s.contents.Some? then [s.contents.value] else []
  {
    if UncompletedTurnLSB(s.state) % 2 == 1 && s.contents.Some? then [s.contents.value] else []
  }

  /** The elements `delete[]` of the slot array destroys, in the order it
      runs the slot destructors: from the last slot down to the first. */
  function HeldContents<T>(cells: seq<Slot<T>>): (r: seq<T>)
    ensures |r| <= |cells|
  {
    if cells == [] then [] else HeldContents(cells[1..]) + HeldBy(cells[0])
  }

  /** Every element a slot holds is among those destroyed. */
  lemma {:induction false} HeldContentsHas<T>(cells: seq<Slot<T>>, i: nat)
    requires AllConsistent(cells)
    requires i < |cells| && cells[i].contents.Some?
    ensures cells[i].contents.value in HeldContents(cells)
  {
    if i > 0 {
      HeldContentsHas(cells[1..], i - 1);
    }
  }

  /** Slots that hold nothing destroy nothing. */
  lemma {:induction false} NothingHeld<T>(cells: seq<Slot<T>>)
    requires forall i :: 0 <= i < |cells| ==> cells[i].contents.None?
    ensures HeldContents(cells) == []
  {
    if cells != [] {
      NothingHeld(cells[1..]);
    }
  }

  /** The destroyed elements are those of the slots after `i`, then slot
      `i`'s, then those of the slots before it. */
  lemma {:induction false} HeldContentsAt<T>(cells: seq<Slot<T>>, i: nat)
    requires i < |cells|
    ensures HeldContents(cells) == HeldContents(cells[i + 1..]) + HeldBy(cells[i]) + HeldContents(cells[..i])
  {
    if i > 0 {
      var rest, before := cells[1..], cells[..i];
      HeldContentsAt(rest, i - 1);
      assert rest[i..] == cells[i + 1..] && rest[i - 1] == cells[i];
      assert rest[..i - 1] == cells[1..i];
      var a, b, c, h := HeldContents(cells[i + 1..]), HeldBy(cells[i]), HeldContents(cells[1..i]), HeldBy(cells[0]);
      assert HeldContents(rest) == a + b + c;
      assert before[1..] == cells[1..i] && before[0] == cells[0];
      assert HeldContents(before) == c + h;
      assert HeldContents(cells) == (a + b + c) + h;
      assert (a + b + c) + h == a + b + (c + h);
    } else {
      assert cells[1..] == cells[i + 1..];
    }
  }

  /** Replacing one slot replaces what it contributes to the destroyed
      elements, and nothing else. */
  lemma HeldAfterUpdate<T>(cells: seq<Slot<T>>, i: nat, s: Slot<T>)
    requires i < |cells|
    ensures multiset(HeldContents(cells[i := s])) + multiset(HeldBy(cells[i]))
         == multiset(HeldContents(cells)) + multiset(HeldBy(s))
  {
    var cells' := cells[i := s];
    HeldContentsAt(cells, i);
    HeldContentsAt(cells', i);
    assert cells'[i + 1..] == cells[i + 1..] && cells'[..i] == cells[..i];
  }

  /** The multiset of a non-empty sequence is its first element and the
      rest. */
  lemma MultisetFirst<T>(elems: seq<T>)
    requires elems != []
    ensures multiset(elems) == multiset{elems[0]} + multiset(elems[1..])
  {
    assert elems == [elems[0]] + elems[1..];
  }

  /** Emptying a slot that holds the first of `elems` takes that element,
      and only it, out of the destroyed elements. */
  lemma HeldAfterTake<T>(cells: seq<Slot<T>>, i: nat, s: Slot<T>, elems: seq<T>)
    requires elems != []
    requires i < |cells| && SlotConsistent(cells[i]) && cells[i].contents == Some(elems[0])
    requires SlotConsistent(s) && s.contents.None?
    requires multiset(HeldContents(cells[i := s])) == multiset(elems[1..])
    ensures multiset(HeldContents(cells)) == multiset(elems)
  {
    var x := elems[0];
    var before := multiset(HeldContents(cells));
    var after := multiset(HeldContents(cells[i := s]));
    HeldAfterUpdate(cells, i, s);
    assert HeldBy(cells[i]) == [x];
    assert HeldBy(s) == [];
    assert after + multiset{x} == before;
    MultisetFirst(elems);
  }

  /** With nothing queued no slot holds an element: the window's tickets own
      every slot between the paddings, all of them empty, and the padding
      slots are fresh. */
  lemma EmptyWindowHoldsNothing<T>(cells: seq<Slot<T>>, cap: nat, stride: nat, padding: nat, pop: nat)
    requires Window(cells, cap, stride, padding, pop, pop, [])
    ensures forall i :: 0 <= i < |cells| ==> cells[i].contents.None?
  {
    forall i | 0 <= i < |cells|
      ensures cells[i].contents.None?
    {
      if padding <= i < padding + cap {
        WindowCovers(cap, stride, padding, pop, i);
        var t :| pop <= t < pop + cap && Idx(t, cap, stride, padding) == i;
        assert cells[i] == Empty<T>(t, cap);
      }
    }
  }

  /** If the slots left by dequeuing the oldest element destroy the rest of
      the queue, the slots before it destroy the whole queue. */
  lemma DequeueHeld<T>(cells: seq<Slot<T>>, cap: nat, stride: nat, padding: nat,
                       pop: nat, push: nat, contents: seq<T>)
    requires Window(cells, cap, stride, padding, pop, push, contents) && pop < push
    requires var i := Idx(pop, cap, stride, padding);
      multiset(HeldContents(cells[i := Dequeued(cells[i], Turn(pop, cap))])) == multiset(contents[1..])
    ensures multiset(HeldContents(cells)) == multiset(contents)
  {
    var i := Idx(pop, cap, stride, padding);
    var cells' := cells[i := Dequeued(cells[i], Turn(pop, cap))];
    DequeuePreserves(cells, cap, stride, padding, pop, push, contents);
    HeldAfterTake(cells, i, cells'[i], contents);
  }

  /** The slot destructors destroy exactly the queued elements, each copy
      once. */
  lemma {:induction false} QueuedAreHeld<T>(cells: seq<Slot<T>>, cap: nat, stride: nat, padding: nat,
                                            pop: nat, push: nat, contents: seq<T>)
    requires Window(cells, cap, stride, padding, pop, push, contents)
    ensures multiset(HeldContents(cells)) == multiset(contents)
    decreases push - pop
  {
    if pop == push {
      EmptyWindowHoldsNothing(cells, cap, stride, padding, pop);
      NothingHeld(cells);
    } else {
      var i := Idx(pop, cap, stride, padding);
      DequeuePreserves(cells, cap, stride, padding, pop, push, contents);
      QueuedAreHeld(cells[i := Dequeued(cells[i], Turn(pop, cap))], cap, stride, padding, pop + 1, push, contents[1..]);
      DequeueHeld(cells, cap, stride, padding, pop, push, contents);
    }
  }

  /** `delete[]` of a slot array: the slot destructors run from the last
      slot down to the first, and each slot whose pending turn has an odd low
      bit destroys the element it holds. */
  method DeleteSlots<T>(slots: array<Slot<T>>) returns (destroyed: seq<T>)
    requires AllConsistent(slots[..])
    modifies slots
    ensures destroyed == HeldContents(old(slots[..]))
    ensures forall i :: 0 <= i < slots.Length ==> slots[i] == Slot(None, old(slots[i].state))
  {
    ghost var cells := slots[..];
    destroyed := [];
    for i := slots.Length downto 0
      invariant destroyed == HeldContents(cells[i..])
      invariant forall j :: i <= j < slots.Length ==> slots[j] == Slot(None, cells[j].state)
      invariant forall j :: 0 <= j < i ==> slots[j] == cells[j]
    {
      assert cells[i..][1..] == cells[i + 1..];
      assert SlotConsistent(cells[i]);
      if UncompletedTurnLSB(slots[i].state) % 2 == 1 {
        destroyed := destroyed + [slots[i].contents.value];
      }
      slots[i] := Slot(None, slots[i].state);
    }
    assert cells[0..] == cells;
  }

  /** A spin cutoff that nothing has measured yet, or one in [200, 20000]. */
  predicate SpinCutoffOk(c: u32)
  {
    c == 0 || MIN_SPIN_LIMIT <= c <= MAX_SPIN_LIMIT
  }

  // ---------------------------------------------------------------------------
  // The queue object

  class MPMCQueue<T> {
    const capacity: nat
    const stride: nat
    /** `kSlotPadding` */
    const padding: nat
    const slots: array<Slot<T>>
    var pushTicket: nat
    var popTicket: nat
    var pushSpinCutoff: u32
    var popSpinCutoff: u32
    /** The elements written and not yet read, oldest first. */
    ghost var Contents: seq<T>

    /** The invariant with the given pop and push ticket values; between
        claiming a ticket and using it the counter is one ahead. */
    ghost predicate Holds(pop: nat, push: nat)
      reads this, slots
    {
      && Window(slots[..], capacity, stride, padding, pop, push, Contents)
      && SpinCutoffOk(pushSpinCutoff) && SpinCutoffOk(popSpinCutoff)
    }

    ghost predicate Valid()
      reads this, slots
    {
      Holds(popTicket, pushTicket)
    }

    /** `MPMCQueue(queueCapacity)` for a capacity the base constructor
        accepts: stride from `computeStride`, all slots fresh, both tickets
        and both spin cutoffs 0. */
    constructor (queueCapacity: nat, slotBytes: nat)
      requires queueCapacity > 0 && slotBytes > 0
      ensures Valid() && fresh(slots)
      ensures Contents == [] && pushTicket == 0 && popTicket == 0
      ensures capacity == queueCapacity && padding == SlotPadding(slotBytes)
      ensures slots.Length == queueCapacity + 2 * padding
      ensures pushSpinCutoff == 0 && popSpinCutoff == 0
    {
      var s := ComputeStride(queueCapacity);
      StrideCoprime(s, queueCapacity);
      var pad := SlotPadding(slotBytes);
      capacity := queueCapacity;
      stride := s;
      padding := pad;
      slots := new Slot<T>[queueCapacity + 2 * pad](_ => FreshSlot<T>());
      pushTicket := 0;
      popTicket := 0;
      pushSpinCutoff := 0;
      popSpinCutoff := 0;
      Contents := [];
      new;
      WindowInit<T>(queueCapacity, s, pad);
      assert slots[..] == seq(queueCapacity + 2 * pad, _ => FreshSlot<T>());
    }

    /** The base constructor's check: capacity 0 throws `invalid_argument`. */
    static method Make(queueCapacity: nat, slotBytes: nat) returns (r: Result<MPMCQueue<T>, string>)
      requires slotBytes > 0
      ensures r.Failure? <==> queueCapacity == 0
      ensures r.Failure? ==> r.error == "MPMCQueue with explicit capacity 0 is impossible"
      ensures r.Success? ==> fresh(r.value) && fresh(r.value.slots) && r.value.Valid()
      ensures r.Success? ==> r.value.Contents == [] && r.value.capacity == queueCapacity
    {
      if queueCapacity == 0 {
        return Failure("MPMCQueue with explicit capacity 0 is impossible");
      }
      var q := new MPMCQueue(queueCapacity, slotBytes);
      return Success(q);
    }

    /** `size()` once both counters read the same twice. */
    function Size(): (r: nat)
      reads this, slots
      requires Valid()
      ensures r == |Contents| && r <= capacity
    {
      pushTicket - popTicket
    }

    function IsEmpty(): (r: bool)
      reads this, slots
      requires Valid()
      ensures r <==> Contents == []
    {
      Size() <= 0
    }

    function IsFull(): (r: bool)
      reads this, slots
      requires Valid()
      ensures r <==> |Contents| == capacity
    {
      Size() >= capacity
    }

    /** `tryObtainReadyPushTicket`: claim the next push ticket if its slot is
        ready for its enqueue turn. With no other thread the counter never
        moves under it, so a slot that is not ready means failure. */
    method TryObtainReadyPushTicket() returns (ok: bool, ticket: nat)
      requires Valid()
      modifies this
      ensures ticket == old(pushTicket)
      ensures ok <==> MayEnqueue(slots[Idx(ticket, capacity, stride, padding)], Turn(ticket, capacity))
      ensures ok <==> |Contents| < capacity
      ensures pushTicket == if ok then ticket + 1 else ticket
      ensures popTicket == old(popTicket) && Contents == old(Contents)
      ensures pushSpinCutoff == old(pushSpinCutoff) && popSpinCutoff == old(popSpinCutoff)
      ensures Holds(popTicket, ticket)
    {
      ticket := pushTicket;
      PushAdmission(slots[..], capacity, stride, padding, popTicket, pushTicket, Contents);
      if !MayEnqueue(slots[Idx(ticket, capacity, stride, padding)], Turn(ticket, capacity)) {
        return false, ticket;
      }
      pushTicket := ticket + 1;
      ok := true;
    }

    /** `tryObtainPromisedPushTicket`: claim the next push ticket unless the
        counters say the queue is full. */
    method TryObtainPromisedPushTicket() returns (ok: bool, ticket: nat)
      requires Valid()
      modifies this
      ensures ticket == old(pushTicket)
      ensures ok <==> |Contents| < capacity
      ensures pushTicket == if ok then ticket + 1 else ticket
      ensures popTicket == old(popTicket) && Contents == old(Contents)
      ensures pushSpinCutoff == old(pushSpinCutoff) && popSpinCutoff == old(popSpinCutoff)
      ensures Holds(popTicket, ticket)
    {
      ticket := pushTicket;
      var n := pushTicket - popTicket;
      if n >= capacity {
        return false, ticket;
      }
      pushTicket := ticket + 1;
      ok := true;
    }

    /** `tryObtainReadyPopTicket`: claim the next pop ticket if its slot is
        ready for its dequeue turn. */
    method TryObtainReadyPopTicket() returns (ok: bool, ticket: nat)
      requires Valid()
      modifies this
      ensures ticket == old(popTicket)
      ensures ok <==> MayDequeue(slots[Idx(ticket, capacity, stride, padding)], Turn(ticket, capacity))
      ensures ok <==> Contents != []
      ensures popTicket == if ok then ticket + 1 else ticket
      ensures pushTicket == old(pushTicket) && Contents == old(Contents)
      ensures pushSpinCutoff == old(pushSpinCutoff) && popSpinCutoff == old(popSpinCutoff)
      ensures Holds(ticket, pushTicket)
    {
      ticket := popTicket;
      PopAdmission(slots[..], capacity, stride, padding, popTicket, pushTicket, Contents);
      if !MayDequeue(slots[Idx(ticket, capacity, stride, padding)], Turn(ticket, capacity)) {
        return false, ticket;
      }
      popTicket := ticket + 1;
      ok := true;
    }

    /** `tryObtainPromisedPopTicket`: claim the next pop ticket unless the
        counters say the queue is empty. */
    method TryObtainPromisedPopTicket() returns (ok: bool, ticket: nat)
      requires Valid()
      modifies this
      ensures ticket == old(popTicket)
      ensures ok <==> Contents != []
      ensures popTicket == if ok then ticket + 1 else ticket
      ensures pushTicket == old(pushTicket) && Contents == old(Contents)
      ensures pushSpinCutoff == old(pushSpinCutoff) && popSpinCutoff == old(popSpinCutoff)
      ensures Holds(ticket, pushTicket)
    {
      ticket := popTicket;
      if popTicket >= pushTicket {
        return false, ticket;
      }
      popTicket := ticket + 1;
      ok := true;
    }

    /** `enqueueWithTicketBase` on a claimed push ticket whose slot's turn has
        come: the wait returns on its first pass (so it measured 0 tries),
        the element is stored and the slot's turn completed. */
    method EnqueueWithTicket(ticket: nat, x: T)
      requires Holds(popTicket, ticket) && pushTicket == ticket + 1
      requires ticket < popTicket + capacity
      modifies this, slots
      ensures Valid()
      ensures Contents == old(Contents) + [x]
      ensures pushTicket == old(pushTicket) && popTicket == old(popTicket)
      ensures pushSpinCutoff == SpinCutoffAfterWait(old(pushSpinCutoff), ticket % ADAPTATION_FREQ == 0, 0, 0)
      ensures popSpinCutoff == old(popSpinCutoff)
    {
      var i := Idx(ticket, capacity, stride, padding);
      var turn := Turn(ticket, capacity);
      PushAdmission(slots[..], capacity, stride, padding, popTicket, ticket, Contents);
      assert Classify(slots[i].state, EnqueueTurn(turn)) == Arrived;
      pushSpinCutoff := SpinCutoffAfterWait(pushSpinCutoff, ticket % ADAPTATION_FREQ == 0, 0, 0);
      EnqueuePreserves(slots[..], capacity, stride, padding, popTicket, ticket, Contents, x);
      slots[i] := Enqueued(slots[i], turn, x);
      Contents := Contents + [x];
    }

    /** `dequeueWithTicketBase` on a claimed pop ticket whose slot's turn has
        come: the element is moved out and the slot's turn completed. */
    method DequeueWithTicket(ticket: nat) returns (x: T)
      requires Holds(ticket, pushTicket) && popTicket == ticket + 1
      requires ticket < pushTicket
      modifies this, slots
      ensures Valid()
      ensures x == old(Contents)[0] && Contents == old(Contents)[1..]
      ensures pushTicket == old(pushTicket) && popTicket == old(popTicket)
      ensures popSpinCutoff == SpinCutoffAfterWait(old(popSpinCutoff), ticket % ADAPTATION_FREQ == 0, 0, 0)
      ensures pushSpinCutoff == old(pushSpinCutoff)
    {
      var i := Idx(ticket, capacity, stride, padding);
      var turn := Turn(ticket, capacity);
      PopAdmission(slots[..], capacity, stride, padding, ticket, pushTicket, Contents);
      assert Classify(slots[i].state, DequeueTurn(turn)) == Arrived;
      popSpinCutoff := SpinCutoffAfterWait(popSpinCutoff, ticket % ADAPTATION_FREQ == 0, 0, 0);
      DequeuePreserves(slots[..], capacity, stride, padding, ticket, pushTicket, Contents);
      x := slots[i].contents.value;
      slots[i] := Dequeued(slots[i], turn);
      Contents := Contents[1..];
    }

    /** `write(x)`: enqueue unless the next slot is not ready (the queue is
        full); the element is then dropped. */
    method Write(x: T) returns (ok: bool)
      requires Valid()
      modifies this, slots
      ensures Valid()
      ensures ok <==> |old(Contents)| < capacity
      ensures Contents == if ok then old(Contents) + [x] else old(Contents)
    {
      var ticket;
      ok, ticket := TryObtainReadyPushTicket();
      if ok {
        EnqueueWithTicket(ticket, x);
      }
    }

    /** `writeIfNotFull(x)`: enqueue unless the counters say the queue is full. */
    method WriteIfNotFull(x: T) returns (ok: bool)
      requires Valid()
      modifies this, slots
      ensures Valid()
      ensures ok <==> |old(Contents)| < capacity
      ensures Contents == if ok then old(Contents) + [x] else old(Contents)
    {
      var ticket;
      ok, ticket := TryObtainPromisedPushTicket();
      if ok {
        EnqueueWithTicket(ticket, x);
      }
    }

    /** `blockingWrite(x)`: take the next ticket unconditionally; its wait
        returns only once the slot is free, so the queue must not be full. */
    method BlockingWrite(x: T)
      requires Valid() && |Contents| < capacity
      modifies this, slots
      ensures Valid()
      ensures Contents == old(Contents) + [x]
    {
      var ticket := pushTicket;
      pushTicket := pushTicket + 1;
      EnqueueWithTicket(ticket, x);
    }

    /** `read(elem)`: dequeue the oldest element unless the next slot is not
        ready (the queue is empty). */
    method Read() returns (r: Option<T>)
      requires Valid()
      modifies this, slots
      ensures Valid()
      ensures r.None? <==> old(Contents) == []
      ensures r.Some? ==> r.value == old(Contents)[0] && Contents == old(Contents)[1..]
      ensures r.None? ==> Contents == old(Contents)
    {
      var ok, ticket := TryObtainReadyPopTicket();
      if ok {
        var x := DequeueWithTicket(ticket);
        r := Some(x);
      } else {
        r := None;
      }
    }

    /** `blockingRead(elem)`: take the next pop ticket unconditionally; its
        wait returns only once an element is there. */
    method BlockingRead() returns (x: T)
      requires Valid() && Contents != []
      modifies this, slots
      ensures Valid()
      ensures x == old(Contents)[0] && Contents == old(Contents)[1..]
    {
      var ticket := popTicket;
      popTicket := popTicket + 1;
      x := DequeueWithTicket(ticket);
    }

    /** `~MPMCQueueBase()`: `delete[] slots_` destroys exactly the queued
        elements, each copy once. */
    method Destroy() returns (destroyed: seq<T>)
      requires Valid()
      modifies slots
      ensures destroyed == HeldContents(old(slots[..]))
      ensures multiset(destroyed) == multiset(old(Contents))
      ensures forall i :: 0 <= i < slots.Length ==> slots[i] == Slot(None, old(slots[i].state))
    {
      QueuedAreHeld(slots[..], capacity, stride, padding, popTicket, pushTicket, Contents);
      destroyed := DeleteSlots(slots);
    }
  }
}
