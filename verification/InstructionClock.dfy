/** Instruction counting: a slice of guest execution is given a budget of instructions, kept in a
    16-bit decrementer and a reserve behind it, and virtual time is derived from what is left. */
module InstructionClock {

  const MAX_SHIFT := 10
  const LOW_MAX := 0xffff
  /** A tenth of a second, in nanoseconds. */
  const WOBBLE := 100_000_000
  const INT32_MAX := 0x7fff_ffff
  /** The longest translation block. */
  const BLOCK_MAX := 0x7fff

  function Pow2(s: nat): (r: nat)
    ensures r >= 1
  {
    if s == 0 then 1 else 2 * Pow2(s - 1)
  }

  lemma Distribute(a: int, b: int, p: nat)
    ensures (a - b) * p == a * p - b * p
  {
  }

  lemma TimesIsZero(n: nat, p: nat)
    requires p >= 1
    ensures n * p == 0 <==> n == 0
  {
    if n > 0 {
      assert n * p >= p;
    }
  }

  lemma TimesMonotone(a: int, b: int, p: nat)
    requires a <= b
    ensures a * p <= b * p
  {
    Distribute(b, a, p);
    assert (b - a) * p >= 0;
  }

  // ---------------------------------------------------------------------------------------
  // Budget of a slice

  function ClampDeadline(deadline: int): nat {
    if deadline < 0 || deadline > INT32_MAX then INT32_MAX else deadline
  }

  /** qemu_icount_round */
  function Round(ns: nat, shift: nat): nat {
    (ns + Pow2(shift) - 1) / Pow2(shift)
  }

  /** The budget is the least number of instructions that reaches the deadline. */
  lemma RoundIsLeast(ns: nat, shift: nat)
    ensures Round(ns, shift) * Pow2(shift) >= ns
    ensures forall k: nat :: k * Pow2(shift) >= ns ==> Round(ns, shift) <= k
  {
    var p, c := Pow2(shift), Round(ns, shift);
    var x := ns + p - 1;
    assert x == c * p + x % p;
    forall k: nat | k * p >= ns
      ensures c <= k
    {
      Least(c, k, p, ns);
    }
  }

  /** `n` instructions, and no fewer, take at least `ns` nanoseconds. */
  ghost predicate LeastBudget(n: nat, ns: nat, shift: nat) {
    n * Pow2(shift) >= ns && forall k: nat :: k * Pow2(shift) >= ns ==> n <= k
  }

  lemma Least(c: nat, k: nat, p: nat, ns: nat)
    requires p >= 1 && c * p <= ns + p - 1 && k * p >= ns
    ensures c <= k
  {
    Distribute(c, k, p);
    SmallFactor(c - k, p);
  }

  lemma SmallFactor(a: int, p: nat)
    requires p >= 1 && a * p < p
    ensures a <= 0
  {
    if a >= 1 {
      TimesMonotone(1, a, p);
    }
  }

  // ---------------------------------------------------------------------------------------
  // Reference: a single countdown

  /** What happens while a slice runs: a block of `len` instructions of which `done` retire (fewer than
      `len` when one of them faults), an interrupt raised for the CPU, or leaving for another reason. */
  datatype Event = Block(len: nat, done: nat) | Interrupt | Leave

  predicate EventOk(e: Event) {
    e.Block? ==> 1 <= e.len <= BLOCK_MAX && e.done <= e.len
  }

  predicate EventsOk(events: seq<Event>) {
    forall i | 0 <= i < |events| :: EventOk(events[i])
  }

  /** Instructions retired by a slice that simply counts down from `budget`: a block that does not
      fit is cut to what is left, and an interrupt stops the slice before the next block. */
  function Countdown(events: seq<Event>, budget: nat, interrupted: bool): nat {
    if events == [] then 0
    else match events[0]
      case Leave => 0
      case Interrupt => Countdown(events[1..], budget, true)
      case Block(len, done) =>
        if interrupted then 0
        else if done < budget || (done == budget && len <= budget) then done + Countdown(events[1..], budget - done, false)
        else budget
  }

  lemma {:induction false} CountdownBound(events: seq<Event>, budget: nat, interrupted: bool)
    ensures Countdown(events, budget, interrupted) <= budget
  {
    if events != [] && !events[0].Leave? {
      if events[0].Interrupt? {
        CountdownBound(events[1..], budget, true);
      } else if events[0].done <= budget {
        CountdownBound(events[1..], budget - events[0].done, false);
      }
    }
  }

  /** Only blocks that run to their end. */
  predicate Undisturbed(events: seq<Event>) {
    forall i | 0 <= i < |events| :: events[i].Block? && events[i].done == events[i].len
  }

  function TotalLen(events: seq<Event>): nat {
    if events == [] then 0 else (if events[0].Block? then events[0].len else 0) + TotalLen(events[1..])
  }

  /** An undisturbed slice with enough to do spends its budget to the last instruction. */
  lemma {:induction false} UndisturbedIsExact(events: seq<Event>, budget: nat)
    requires Undisturbed(events) && TotalLen(events) >= budget
    ensures Countdown(events, budget, false) == budget
  {
    if events != [] {
      var n := events[0].len;
      if n <= budget {
        UndisturbedIsExact(events[1..], budget - n);
      }
    }
  }

  // ---------------------------------------------------------------------------------------
  // The decrementer

  /** The two halves of the decrementer, read as one signed 32-bit number. */
  function Signed32(high: nat, low: nat): int {
    var v := high * 0x1_0000 + low;
    if v >= 0x8000_0000 then v - 0x1_0000_0000 else v
  }

  /** Wrap-around of a 32-bit subtraction. */
  function Wrap32(x: int): int {
    (x + 0x8000_0000) % 0x1_0000_0000 - 0x8000_0000
  }

  /** The rate for the next second, from how far the guest is ahead of the host: one step slower when it
      is ahead and drifts further ahead, one step faster when it is behind and drifts further behind. */
  function NewShift(delta: int, lastDelta: int, shift: nat): (r: nat)
    requires shift <= MAX_SHIFT
    ensures r <= MAX_SHIFT && -1 <= r - shift <= 1
    ensures r == shift - 1 <==> delta > 0 && 2 * delta - lastDelta > WOBBLE && shift > 0
    ensures r == shift + 1 <==> delta < 0 && lastDelta - 2 * delta > WOBBLE && shift < MAX_SHIFT
  {
    if delta > 0 && lastDelta + WOBBLE < delta * 2 && shift > 0 then shift - 1
    else if delta < 0 && lastDelta - WOBBLE > delta * 2 && shift < MAX_SHIFT then shift + 1
    else shift
  }

  /** Being behind is treated as being ahead is, with the rate counted from the other end. */
  lemma NewShiftMirrored(delta: int, lastDelta: int, shift: nat)
    requires shift <= MAX_SHIFT
    ensures NewShift(-delta, -lastDelta, MAX_SHIFT - shift) == MAX_SHIFT - NewShift(delta, lastDelta, shift)
  {
  }

  /** A guest that is ahead by more than the wobble and not less than before is slowed down; one whose distance
      stays within a third of it is left alone. */
  lemma NewShiftActs(delta: int, lastDelta: int, shift: nat)
    requires shift <= MAX_SHIFT
    ensures delta > WOBBLE && delta >= lastDelta && shift > 0 ==> NewShift(delta, lastDelta, shift) == shift - 1
    ensures -WOBBLE <= 3 * delta <= WOBBLE && -WOBBLE <= 3 * lastDelta <= WOBBLE ==> NewShift(delta, lastDelta, shift) == shift
  {
  }

  /** What the guest counts as a nanosecond doubles with every step of the rate. */
  lemma Pow2Doubles(s: nat)
    ensures Pow2(0) == 1 && Pow2(s + 1) == 2 * Pow2(s)
  {
  }

  datatype Op = Slice(deadline: int, events: seq<Event>) | Adjust(running: bool, hostTime: int)

  class Clock {
    // Timer state.
    var icount: int
    var bias: int
    var shift: nat
    var lastDelta: int
    // The CPU's counters; `current` tells whether the CPU is the one that runs.
    var low: nat
    var high: nat
    var extra: nat
    var current: bool
    /** Guest instructions retired since the counter was zero. */
    ghost var retired: nat

    ghost predicate Inv()
      reads this
    {
      && low <= LOW_MAX && (high == 0 || high == 0xffff) && shift <= MAX_SHIFT
      && icount == retired + low + extra
    }

    /** Between slices nothing is handed out. */
    ghost predicate Idle()
      reads this
    {
      Inv() && low == 0 && extra == 0 && !current
    }

    /** cpu_get_icount_raw: the instructions retired, also in the middle of a slice. */
    function Raw(): (r: int)
      reads this
      ensures Inv() && (current || low + extra == 0) ==> r == retired
    {
      if current then icount - (low + extra) else icount
    }

    /** cpu_get_icount_locked */
    function Time(): int
      reads this
    {
      bias + Raw() * Pow2(shift)
    }

    constructor (shift: nat)
      requires shift <= MAX_SHIFT
      ensures Idle() && retired == 0 && Time() == 0 && this.shift == shift
    {
      icount, bias, lastDelta, low, high, extra, current := 0, 0, 0, 0, 0, 0, false;
      this.shift := shift;
      retired := 0;
    }

    /** Before the CPU runs: fold back what is left over and hand out the budget. */
    method StartSlice(deadline: int)
      requires Inv()
      modifies `icount, `low, `extra, `current
      ensures Inv() && current
      ensures low + extra == Round(ClampDeadline(deadline), shift)
      ensures LeastBudget(low + extra, if 0 <= deadline <= INT32_MAX then deadline else INT32_MAX, shift)
      ensures icount == old(icount - (low + extra)) + low + extra
    {
      icount := icount - (low + extra);
      var count := Round(ClampDeadline(deadline), shift);
      RoundIsLeast(ClampDeadline(deadline), shift);
      icount := icount + count;
      var decr := if count > LOW_MAX then LOW_MAX else count;
      low, extra := decr, count - decr;
      current := true;
    }

    /** The prologue of a translated block: it runs only when its instructions fit in the
        decrementer, and takes them off at once. */
    method EnterBlock(n: nat) returns (ran: bool)
      requires Inv() && n <= BLOCK_MAX
      modifies `low, `retired
      ensures Inv() && ran == (high == 0 && n <= old(low))
      ensures low == if ran then old(low) - n else old(low)
    {
      var count := Wrap32(Signed32(high, low) - n);
      ran := count >= 0;
      if ran {
        low := count % 0x1_0000;
        retired := retired + n;
      }
    }

    /** A fault: the instructions of the block that did not retire are given back. */
    method GiveBack(n: nat, done: nat)
      requires Inv() && done <= n && low + n <= LOW_MAX && retired >= n - done
      modifies `low, `retired
      ensures Inv() && low == old(low) + n - done && retired == old(retired) - (n - done)
    {
      low := low + n;
      low := low - done;
      retired := retired - (n - done);
    }

    /** Running out of the decrementer with a reserve left moves as much as fits out of the reserve. */
    method Refill()
      requires Inv() && high == 0 && extra != 0
      modifies `low, `extra
      ensures Inv() && low + extra == old(low + extra)
      ensures low == if old(low + extra) > LOW_MAX then LOW_MAX else old(low + extra)
    {
      var left := Signed32(high, low);
      extra := extra + left;
      left := if extra < LOW_MAX then extra else LOW_MAX;
      extra := extra - left;
      low := left;
    }

    /** Runs a block whose instructions fit in the decrementer. */
    method RunBlock(n: nat, done: nat)
      requires Inv() && high == 0 && n <= BLOCK_MAX && n <= low && done <= n
      modifies `low, `retired
      ensures Inv() && low == old(low) - done && retired == old(retired) + done
    {
      var ran := EnterBlock(n);
      if done < n {
        GiveBack(n, done);
      }
    }

    /** One block: run it, after a refill when that is needed, or cut it to what is left. */
    method Attempt(n: nat, done: nat) returns (exit: bool)
      requires Inv() && EventOk(Block(n, done))
      modifies `low, `extra, `retired
      ensures Inv() && low + extra + retired == old(low + extra + retired) && retired >= old(retired)
      ensures high != 0 ==> exit && retired == old(retired)
      ensures high == 0 && n <= old(low + extra) ==> !exit && retired == old(retired) + done
      ensures high == 0 && n > old(low + extra) ==> exit == (done >= old(low + extra))
      ensures high == 0 && n > old(low + extra) ==>
        retired == old(retired) + if exit then old(low + extra) else done
    {
      if n > low && extra != 0 && Signed32(high, low) >= 0 {
        Refill();
      }
      if high == 0 && n <= low {
        RunBlock(n, done);
        exit := false;
      } else {
        var left := Signed32(high, low);
        exit := true;
        if left > 0 {
          // The block is translated again, cut to the instructions that are left.
          RunBlock(left, if done < left then done else left);
          exit := done >= left;
        }
      }
    }

    /** What the CPU does in a slice is what a plain countdown of the budget does, however often the
        decrementer is refilled. */
    method Exec(events: seq<Event>)
      requires Inv() && EventsOk(events)
      modifies `low, `high, `extra, `retired
      ensures Inv() && low + extra + retired == old(low + extra + retired)
      ensures retired == old(retired) + Countdown(events, old(low + extra), old(high != 0))
    {
      var i: nat := 0;
      assert events[0..] == events;
      while i < |events|
        invariant i <= |events| && Inv() && low + extra + retired == old(low + extra + retired)
        invariant retired + Countdown(events[i..], low + extra, high != 0)
               == old(retired) + Countdown(events, old(low + extra), old(high != 0))
      {
        var rest := events[i..];
        assert rest[0] == events[i] && rest[1..] == events[i + 1..];
        match events[i] {
          case Leave => return;
          case Interrupt => high := 0xffff;
          case Block(n, done) =>
            assert EventOk(events[i]);
            var exit := Attempt(n, done);
            if exit {
              return;
            }
        }
        i := i + 1;
      }
    }

    /** After the CPU ran: what it did not use is folded back. */
    method FinishSlice()
      requires Inv()
      modifies `icount, `low, `high, `extra, `current
      ensures Idle() && high == 0 && icount == retired
    {
      icount := icount - (low + extra);
      low, high := 0, 0;
      extra := 0;
      current := false;
    }

    /** A whole slice: virtual time advances by the instructions retired, and these never take it
        past the first instruction boundary at or after the deadline. */
    method RunSlice(deadline: int, events: seq<Event>)
      requires Idle() && EventsOk(events)
      modifies `icount, `low, `high, `extra, `current, `retired
      ensures Idle() && high == 0
      ensures var budget := Round(ClampDeadline(deadline), shift);
        && retired == old(retired) + Countdown(events, budget, old(high != 0))
        && Time() == old(Time()) + Countdown(events, budget, old(high != 0)) * Pow2(shift)
      ensures old(retired) <= retired <= old(retired) + Round(ClampDeadline(deadline), shift)
      ensures Time() >= old(Time())
    {
      hide Countdown, Round, Pow2;
      StartSlice(deadline);
      ghost var budget := low + extra;
      Exec(events);
      FinishSlice();
      ghost var n := Countdown(events, budget, old(high != 0));
      CountdownBound(events, budget, old(high != 0));
      Distribute(retired, n, Pow2(shift));
    }

    /** icount_adjust. The new bias is computed from the whole counter, so virtual time stays where it
        was exactly when no part of the counter is handed out, which holds between slices. */
    method AdjustRate(running: bool, hostTime: int)
      requires Inv()
      modifies `shift, `bias, `lastDelta
      ensures Inv()
      ensures running ==> (Time() == old(Time()) <==> !current || low + extra == 0)
      ensures running && current ==> Time() == old(Time()) - (low + extra) * Pow2(shift)
      ensures !running ==> Time() == old(Time()) && shift == old(shift) && bias == old(bias) && lastDelta == old(lastDelta)
      ensures running ==> shift == NewShift(old(Time()) - hostTime, old(lastDelta), old(shift))
      ensures running ==> lastDelta == old(Time()) - hostTime
    {
      if !running {
        return;
      }
      var now := Time();
      var delta := now - hostTime;
      if delta > 0 && lastDelta + WOBBLE < delta * 2 && shift > 0 {
        shift := shift - 1;
      }
      if delta < 0 && lastDelta - WOBBLE > delta * 2 && shift < MAX_SHIFT {
        shift := shift + 1;
      }
      lastDelta := delta;
      bias := now - icount * Pow2(shift);
      Distribute(icount, low + extra, Pow2(shift));
      TimesIsZero(low + extra, Pow2(shift));
    }

    /** Over any run of slices and rate changes virtual time never goes back, and each instruction
        retired is counted once. */
    method Run(ops: seq<Op>)
      requires Idle() && forall i | 0 <= i < |ops| && ops[i].Slice? :: EventsOk(ops[i].events)
      modifies this
      ensures Idle() && icount == retired && retired >= old(retired) && Time() >= old(Time())
    {
      hide Countdown, Round, Pow2, NewShift, EventsOk;
      for i := 0 to |ops|
        invariant Idle() && retired >= old(retired) && Time() >= old(Time())
      {
        match ops[i] {
          case Slice(deadline, events) => RunSlice(deadline, events);
          case Adjust(running, hostTime) => AdjustRate(running, hostTime);
        }
      }
    }
  }

  /** Adjusted in the middle of a slice, here with 100 instructions handed out, virtual time moves back. */
  method AdjustInSlice() returns (before: int, after: int)
    ensures before == 0 && after == -100
  {
    var clock := new Clock(0);
    clock.StartSlice(100);
    before := clock.Time();
    clock.AdjustRate(true, 0);
    after := clock.Time();
  }
}
