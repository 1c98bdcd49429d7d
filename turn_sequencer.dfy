/**
 * The turn sequencer of one queue slot (include/log/turn_sequencer.h).
 *
 * Its whole state is one 32-bit word: the current turn shifted left by six
 * bits, OR-ed with a saturating count (at most 63) of how far ahead the
 * furthest registered waiter is. The arithmetic on that word is given here as
 * pure functions; the `Sequencer` class applies them to its `state` field as
 * the source's atomic operations do, each one taken as a single atomic step.
 * A wait that would block becomes a precondition: the turn has arrived (or is
 * recognisably in the past).
 */
module TurnSequencer {
  import opened Bits
  import opened NumberTheory
  import opened Wrappers

  const TURN_SHIFT: nat := 6
  const WAITERS_MASK: nat := 63
  /** 2^26: how many distinct turns the shifted 32-bit word can tell apart. */
  const TURN_RANGE: nat := 0x400_0000
  /** std::numeric_limits<uint32_t>::max() / 2, the PAST threshold. */
  const HALF_RANGE: nat := 0x7FFF_FFFF
  const MIN_SPIN_LIMIT: u32 := 200
  const MAX_SPIN_LIMIT: u32 := 20000

  // ---------------------------------------------------------------------------
  // Encoding of the state word

  /** `turn << kTurnShift` on a uint32: the top six bits of the turn are lost. */
  function ShiftTurn(turn: u32): (r: u32)
  {
    (turn * 64) % TWO_32
  }

  /** `state & ~kWaitersMask` */
  function DecodeCurrentSturn(state: u32): (r: u32)
  {
    state - state % 64
  }

  /** `state & kWaitersMask` */
  function DecodeMaxWaitersDelta(state: u32): (r: u32)
  {
    state % 64
  }

  /** `currentSturn | min(kWaitersMask, maxWaiterD)` */
  function Encode(currentSturn: u32, maxWaiterD: u32): (r: u32)
  {
    Pow2Values();
    BitOrBound(currentSturn, Min(WAITERS_MASK, maxWaiterD), 32);
    BitOr(currentSturn, Min(WAITERS_MASK, maxWaiterD))
  }

  /** Decoding an encoded word gives back the shifted turn and the capped
      waiter delta, whenever the turn part has its six low bits clear. */
  lemma DecodeEncode(sturn: u32, delta: u32)
    requires sturn % 64 == 0
    ensures DecodeCurrentSturn(Encode(sturn, delta)) == sturn
    ensures DecodeMaxWaitersDelta(Encode(sturn, delta)) == Min(WAITERS_MASK, delta)
  {
    var d := Min(WAITERS_MASK, delta);
    Pow2Values();
    assert sturn == (sturn / 64) * Pow2(6);
    BitOrDisjoint(sturn / 64, d, 6);
    var e := Encode(sturn, delta);
    assert e == sturn + d;
    DivModUnique(e, 64, sturn / 64, d);
  }

  /** A shifted turn keeps the turn modulo 2^26 and has its low bits clear;
      two turns shift to the same word exactly when they agree modulo 2^26. */
  lemma ShiftTurnValue(turn: u32)
    ensures ShiftTurn(turn) == 64 * (turn % TURN_RANGE)
    ensures ShiftTurn(turn) % 64 == 0
  {
  }

  lemma ShiftTurnInjective(a: u32, b: u32)
    ensures ShiftTurn(a) == ShiftTurn(b) <==> a % TURN_RANGE == b % TURN_RANGE
  {
    ShiftTurnValue(a);
    ShiftTurnValue(b);
  }

  /** `isTurn(turn)` read on a given state word. */
  predicate IsTurnState(state: u32, turn: u32)
  {
    DecodeCurrentSturn(state) == ShiftTurn(turn)
  }

  /** The word `completeTurn(turn)` installs: the next turn, and the waiter
      delta lowered by one unless it is already zero. */
  function CompletedState(state: u32, turn: u32): u32
  {
    var delta := DecodeMaxWaitersDelta(state);
    Encode(ShiftTurn((turn + 1) % TWO_32), if delta == 0 then 0 else delta - 1)
  }

  /** Completing the current turn makes the next turn current, is no longer
      the completed turn, and lowers the waiter delta by one, saturating at 0. */
  lemma {:induction false} CompleteTurnAdvances(state: u32, turn: u32)
    requires IsTurnState(state, turn)
    ensures IsTurnState(CompletedState(state, turn), (turn + 1) % TWO_32)
    ensures !IsTurnState(CompletedState(state, turn), turn)
    ensures DecodeMaxWaitersDelta(CompletedState(state, turn)) == Max(0, DecodeMaxWaitersDelta(state) - 1)
  {
    var delta := DecodeMaxWaitersDelta(state);
    ShiftTurnValue((turn + 1) % TWO_32);
    DecodeEncode(ShiftTurn((turn + 1) % TWO_32), if delta == 0 then 0 else delta - 1);
    ShiftTurnInjective(turn, (turn + 1) % TWO_32);
  }

  /** `futexChannel(turn)`: the wake/wait bit `1 << (turn & 31)`. */
  function FutexChannel(turn: u32): (r: u32)
    ensures PopCount(r) == 1
  {
    Pow2Values();
    Pow2Monotone(turn % 32, 32);
    PopCountPow2(turn % 32);
    Pow2(turn % 32)
  }

  /** `uncompletedTurnLSB()`: the low byte of the current (uncompleted) turn. */
  function UncompletedTurnLSB(state: u32): (r: nat)
    ensures r < 256
    ensures r % 2 == (state / 64) % 2
  {
    (state / 64) % 256
  }

  /** The low bit `uncompletedTurnLSB` reports for a word holding a shifted
      turn is the low bit of that turn. */
  lemma UncompletedTurnLSBOfShift(turn: u32)
    ensures UncompletedTurnLSB(ShiftTurn(turn)) % 2 == turn % 2
  {
    ShiftTurnValue(turn);
    assert ShiftTurn(turn) / 64 == turn % TURN_RANGE;
    assert (turn % TURN_RANGE) % 2 == turn % 2;
  }

  // ---------------------------------------------------------------------------
  // One pass of the wait loop of tryWaitForTurn

  datatype WaitDecision = Arrived | Past | MustWait

  /** What one pass of the wait loop decides on reading `state` while waiting
      for `turn`: break out (the turn has come), report PAST, or keep waiting. */
  function Classify(state: u32, turn: u32): WaitDecision
  {
    var sturn := ShiftTurn(turn);
    var current := DecodeCurrentSturn(state);
    if current == sturn then Arrived
    else if Sub32(sturn, current) >= HALF_RANGE then Past
    else MustWait
  }

  /** How many turns `turn` lies ahead of the current turn, modulo 2^26. */
  function TurnsAhead(state: u32, turn: u32): nat
  {
    (turn - DecodeCurrentSturn(state) / 64) % TURN_RANGE
  }

  /** A wait returns at once when its turn is current, keeps waiting for a
      turn fewer than 2^25 turns ahead, and reports PAST for one 2^25 or more
      turns ahead, that is, for a turn at most 2^25 turns behind. */
  lemma ClassifyByDistance(state: u32, turn: u32)
    ensures Classify(state, turn) ==
      (if TurnsAhead(state, turn) == 0 then Arrived
       else if TurnsAhead(state, turn) < TURN_RANGE / 2 then MustWait
       else Past)
  {
    var current := DecodeCurrentSturn(state);
    var k := TurnsAhead(state, turn);
    ShiftTurnValue(turn);
    assert current == 64 * (current / 64);
    assert Sub32(ShiftTurn(turn), current) == 64 * k;
  }

  /** The waiter delta a thread records for itself before it sleeps
      (`(sturn - current_sturn) >> kTurnShift`). */
  function OurWaiterDelta(state: u32, turn: u32): u32
  {
    Sub32(ShiftTurn(turn), DecodeCurrentSturn(state)) / 64
  }

  /** The word after a thread registers as a waiter for `turn`: unchanged when
      the recorded delta already covers it, otherwise re-encoded with its own. */
  function RaisedState(state: u32, turn: u32): u32
  {
    var ours := OurWaiterDelta(state, turn);
    if ours <= DecodeMaxWaitersDelta(state) then state
    else Encode(DecodeCurrentSturn(state), ours)
  }

  /** Registering never changes the current turn and never lowers the delta:
      it becomes the larger of the old delta and the thread's own, capped at 63. */
  lemma RaisedStateSpec(state: u32, turn: u32)
    ensures DecodeCurrentSturn(RaisedState(state, turn)) == DecodeCurrentSturn(state)
    ensures DecodeMaxWaitersDelta(RaisedState(state, turn))
         == Max(DecodeMaxWaitersDelta(state), Min(WAITERS_MASK, OurWaiterDelta(state, turn)))
  {
    if OurWaiterDelta(state, turn) > DecodeMaxWaitersDelta(state) {
      DecodeEncode(DecodeCurrentSturn(state), OurWaiterDelta(state, turn));
    }
  }

  // ---------------------------------------------------------------------------
  // Adaptive spin cutoff

  /** The cutoff a wait spins for: the maximum when it is asked to re-measure
      or nothing has been measured yet, otherwise the stored one. */
  function EffectiveSpinCutoff(prevThresh: u32, updateSpinCutoff: bool): (r: u32)
    ensures prevThresh == 0 || MIN_SPIN_LIMIT <= prevThresh <= MAX_SPIN_LIMIT
         ==> MIN_SPIN_LIMIT <= r <= MAX_SPIN_LIMIT
  {
    if updateSpinCutoff || prevThresh == 0 then MAX_SPIN_LIMIT else prevThresh
  }

  /** Cycles spent spinning, measured with the hardware clock except on the
      first pass. */
  function Elapsed(tries: u32, cycles: nat): nat
  {
    if tries == 0 then 0 else cycles
  }

  /** The cutoff a finished wait aims at: the floor when it spun through the
      whole maximum, else twice the time it spun, clamped to [200, 20000]. */
  function SpinTarget(tries: u32, elapsed: nat): (r: u32)
    ensures MIN_SPIN_LIMIT <= r <= MAX_SPIN_LIMIT
    ensures tries >= MAX_SPIN_LIMIT ==> r == MIN_SPIN_LIMIT
  {
    if tries >= MAX_SPIN_LIMIT then MIN_SPIN_LIMIT
    else Min(MAX_SPIN_LIMIT, Max(MIN_SPIN_LIMIT, (elapsed * 2) % TWO_32))
  }

  /** A uint32 read as a two's complement int. */
  function Signed32(x: u32): int
  {
    if x < 0x8000_0000 then x else x - TWO_32
  }

  /** C++ integer division by 8, truncating toward zero. */
  function TruncDiv8(a: int): int
  {
    if a >= 0 then a / 8 else -((-a) / 8)
  }

  /** `prevThresh + int(target - prevThresh) / 8` on uint32, or the target
      itself when nothing was stored yet. */
  function NextSpinCutoff(prevThresh: u32, target: u32): u32
  {
    if prevThresh == 0 then target
    else (prevThresh + TruncDiv8(Signed32(Sub32(target, prevThresh)))) % TWO_32
  }

  /** Once in [200, 20000] the cutoff stays there: it moves one eighth of the
      way (rounded toward zero) from its old value to the target, with no
      wrap-around on the way. */
  lemma NextSpinCutoffInRange(prevThresh: u32, target: u32)
    requires prevThresh == 0 || MIN_SPIN_LIMIT <= prevThresh <= MAX_SPIN_LIMIT
    requires MIN_SPIN_LIMIT <= target <= MAX_SPIN_LIMIT
    ensures MIN_SPIN_LIMIT <= NextSpinCutoff(prevThresh, target) <= MAX_SPIN_LIMIT
    ensures prevThresh != 0 ==>
      NextSpinCutoff(prevThresh, target) == prevThresh + TruncDiv8(target - prevThresh)
    ensures prevThresh != 0 ==>
      Min(prevThresh, target) <= NextSpinCutoff(prevThresh, target) <= Max(prevThresh, target)
  {
    if prevThresh != 0 {
      assert Signed32(Sub32(target, prevThresh)) == target - prevThresh;
    }
  }

  /** The spin cutoff after a successful wait: re-measured when asked to or
      when nothing was stored yet, else left alone. */
  function SpinCutoffAfterWait(prevThresh: u32, updateSpinCutoff: bool, tries: u32, cycles: nat): (r: u32)
    ensures prevThresh == 0 || MIN_SPIN_LIMIT <= prevThresh <= MAX_SPIN_LIMIT
         ==> MIN_SPIN_LIMIT <= r <= MAX_SPIN_LIMIT
    ensures !updateSpinCutoff && prevThresh != 0 ==> r == prevThresh
  {
    if updateSpinCutoff || prevThresh == 0 then
      var target := SpinTarget(tries, Elapsed(tries, cycles));
      assert prevThresh == 0 || MIN_SPIN_LIMIT <= prevThresh <= MAX_SPIN_LIMIT
          ==> MIN_SPIN_LIMIT <= NextSpinCutoff(prevThresh, target) <= MAX_SPIN_LIMIT by {
        if prevThresh == 0 || MIN_SPIN_LIMIT <= prevThresh <= MAX_SPIN_LIMIT {
          NextSpinCutoffInRange(prevThresh, target);
        }
      }
      NextSpinCutoff(prevThresh, target)
    else prevThresh
  }

  // ---------------------------------------------------------------------------
  // The sequencer object

  datatype TryWaitResult = Reached | PastTurn

  class Sequencer {
    var state: u32

    /** `TurnSequencer(firstTurn)`: the first turn is current, nobody waits. */
    constructor (firstTurn: u32)
      ensures IsTurn(firstTurn)
      ensures DecodeMaxWaitersDelta(state) == 0
    {
      ShiftTurnValue(firstTurn);
      DecodeEncode(ShiftTurn(firstTurn), 0);
      state := Encode(ShiftTurn(firstTurn), 0);
    }

    predicate IsTurn(turn: u32)
      reads this
    {
      IsTurnState(state, turn)
    }

    /** `completeTurn(turn)`: only the owner of the current turn may call it.
        Returns the futex channel woken, if any waiter was recorded. */
    method CompleteTurn(turn: u32) returns (woken: Option<u32>)
      requires IsTurn(turn)
      modifies this
      ensures state == CompletedState(old(state), turn)
      ensures IsTurn((turn + 1) % TWO_32) && !IsTurn(turn)
      ensures DecodeMaxWaitersDelta(state) == Max(0, DecodeMaxWaitersDelta(old(state)) - 1)
      ensures woken == if DecodeMaxWaitersDelta(old(state)) != 0
                       then Some(FutexChannel((turn + 1) % TWO_32)) else None
    {
      var maxWaiterDelta := DecodeMaxWaitersDelta(state);
      CompleteTurnAdvances(state, turn);
      state := CompletedState(state, turn);
      if maxWaiterDelta != 0 {
        woken := Some(FutexChannel((turn + 1) % TWO_32));
      } else {
        woken := None;
      }
    }

    /** The compare-and-swap a waiter performs before sleeping on the futex;
        returns the word the futex wait then expects. */
    method RegisterWaiter(turn: u32) returns (expected: u32)
      modifies this
      ensures state == RaisedState(old(state), turn) && expected == state
      ensures DecodeCurrentSturn(state) == DecodeCurrentSturn(old(state))
      ensures DecodeMaxWaitersDelta(state)
           == Max(DecodeMaxWaitersDelta(old(state)), Min(WAITERS_MASK, OurWaiterDelta(old(state), turn)))
    {
      RaisedStateSpec(state, turn);
      var ours := OurWaiterDelta(state, turn);
      if ours > DecodeMaxWaitersDelta(state) {
        state := Encode(DecodeCurrentSturn(state), ours);
      }
      expected := state;
    }

    /** `tryWaitForTurn(turn, spinCutoff, updateSpinCutoff)` without a
        deadline, from the moment the loop stops: `tries` passes were made and
        `cycles` clock cycles spent. Returns the result and the new value of
        the shared spin cutoff. */
    method TryWaitForTurn(turn: u32, prevThresh: u32, updateSpinCutoff: bool, tries: u32, cycles: nat)
      returns (result: TryWaitResult, spinCutoff: u32)
      requires Classify(state, turn) != MustWait
      ensures result == Reached <==> IsTurn(turn)
      ensures result == PastTurn <==> Classify(state, turn) == Past
      ensures result == Reached ==> spinCutoff == SpinCutoffAfterWait(prevThresh, updateSpinCutoff, tries, cycles)
      ensures result == PastTurn ==> spinCutoff == prevThresh
      ensures prevThresh == 0 || MIN_SPIN_LIMIT <= prevThresh <= MAX_SPIN_LIMIT
           ==> spinCutoff == prevThresh || MIN_SPIN_LIMIT <= spinCutoff <= MAX_SPIN_LIMIT
    {
      if Classify(state, turn) == Past {
        return PastTurn, prevThresh;
      }
      result := Reached;
      spinCutoff := SpinCutoffAfterWait(prevThresh, updateSpinCutoff, tries, cycles);
    }
  }
}
