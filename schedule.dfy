/**
 * The refresh schedule of `main`. Six probes (connection, CPU, memory,
 * temperature, battery, clock) each own a string slot. Once a second the
 * loop recomputes every slot whose interval divides the counter, joins the
 * six slots into the status line, advances the counter modulo 30, and
 * frees every slot whose interval divides the new counter -- exactly the
 * slots the next iteration recomputes before it reads them.
 *
 * The probes' outputs are inputs here (`outputs`), the status line goes
 * nowhere, and `sleep(1)` is left out. A slot is `Unset` before its first
 * assignment and `Freed` once its string has been released.
 */
module Schedule {
  import opened CInts

  /** Slot numbers, in the order the status line shows them. */
  const ConnSlot := 0
  const CpuSlot := 1
  const MemSlot := 2
  const TempSlot := 3
  const BattSlot := 4
  const TmLocSlot := 5
  const Probes := 6

  /** `conn_interval`, `cpu_interval`, `mem_interval`, `temp_interval`, `batt_interval`, `tmloc_interval`. */
  const Intervals: seq<int> := [1, 2, 2, 30, 30, 1]
  /** `max_interval`: the counter runs modulo 30. */
  const MaxInterval := 30

  /** A slot pointer: never assigned, pointing at a live string, or dangling after `free`. */
  datatype Slot = Unset | Live(text: string) | Freed

  /** `counter % interval == 0`: the probe in slot `k` runs at this counter value. */
  predicate Due(counter: int, k: nat)
    requires k < Probes
  {
    counter % Intervals[k] == 0
  }

  /** Every interval divides 30, so at counter 0 every probe runs. */
  lemma AllDueAtZero()
    ensures forall k :: 0 <= k < Probes ==> MaxInterval % Intervals[k] == 0 && Due(0, k)
  {
  }

  /**
   * For an interval `d` dividing 30: reducing the next counter modulo 30
   * does not change it modulo `d`, and modulo `d` it is either 0 or one
   * more than the counter.
   */
  lemma {:induction false} NextCounter(c: int, d: int)
    requires 0 <= c < MaxInterval && 0 < d && MaxInterval % d == 0
    ensures ((c + 1) % MaxInterval) % d == (c + 1) % d
    ensures (c + 1) % d == 0 || (c + 1) % d == c % d + 1
  {
    var q, r := c / d, c % d;
    if r + 1 < d {
      ModOf(c + 1, d, q, r + 1);
    } else {
      ModOf(c + 1, d, q + 1, 0);
    }
    if c + 1 == MaxInterval {
      ModOf(c + 1, MaxInterval, 1, 0);
    } else {
      ModOf(c + 1, MaxInterval, 0, c + 1);
    }
  }

  /** Counting one more iteration moves the counter modulo 30 the same way. */
  lemma {:induction false} TicksStep(t: nat)
    ensures (t + 1) % MaxInterval == (t % MaxInterval + 1) % MaxInterval
  {
    var q, c := t / MaxInterval, t % MaxInterval;
    if c + 1 < MaxInterval {
      ModOf(t + 1, MaxInterval, q, c + 1);
      ModOf(c + 1, MaxInterval, 0, c + 1);
    } else {
      ModOf(t + 1, MaxInterval, q + 1, 0);
      ModOf(c + 1, MaxInterval, 1, 0);
    }
  }

  /**
   * Slots and stamps as the schedule keeps them at counter `c` in
   * iteration `t`: a slot is live exactly when its probe is not due, and a
   * live slot was stamped `c % interval` iterations back.
   */
  ghost predicate Scheduled(s: seq<Slot>, at: seq<nat>, c: int, t: nat)
  {
    && |s| == Probes && |at| == Probes
    && (forall k :: 0 <= k < Probes ==> (s[k].Live? <==> !Due(c, k)))
    && (forall k :: 0 <= k < Probes && s[k].Live? ==> at[k] + c % Intervals[k] == t)
  }

  predicate AllLive(slots: seq<Slot>)
  {
    forall k :: 0 <= k < |slots| ==> slots[k].Live?
  }

  /** The start of an iteration: every due probe's slot takes that probe's new output. */
  function Refresh(slots: seq<Slot>, counter: int, outputs: seq<string>): (s: seq<Slot>)
    requires |slots| == Probes && |outputs| == Probes
    ensures |s| == Probes
  {
    seq(Probes, k requires 0 <= k < Probes => if Due(counter, k) then Live(outputs[k]) else slots[k])
  }

  /** The end of an iteration: every slot due at the new counter is freed. */
  function Release(slots: seq<Slot>, counter: int): (s: seq<Slot>)
    requires |slots| == Probes
    ensures |s| == Probes
  {
    seq(Probes, k requires 0 <= k < Probes => if Due(counter, k) then Freed else slots[k])
  }

  /** The iteration stamps after a refresh at counter `c` in iteration `t`: due slots are stamped `t`. */
  function Stamp(at: seq<nat>, c: int, t: nat): (at': seq<nat>)
    requires |at| == Probes
    ensures |at'| == Probes
  {
    seq(Probes, k requires 0 <= k < Probes => if Due(c, k) then t else at[k])
  }

  /**
   * Refreshing the due slots at the start of an iteration that begins in
   * the schedule's invariant leaves every slot live, each stamped
   * `c % interval` iterations back.
   */
  lemma Refreshed(s: seq<Slot>, at: seq<nat>, c: int, t: nat, outputs: seq<string>)
    requires |outputs| == Probes && 0 <= c && Scheduled(s, at, c, t)
    ensures AllLive(Refresh(s, c, outputs))
    ensures forall k :: 0 <= k < Probes ==> Stamp(at, c, t)[k] + c % Intervals[k] == t
  {
  }

  /**
   * Advancing the counter and freeing the slots due at its new value
   * restores the schedule's invariant one iteration later.
   */
  lemma Advanced(s: seq<Slot>, at: seq<nat>, c: int, t: nat, c': int, s': seq<Slot>)
    requires |s| == Probes && |at| == Probes && AllLive(s)
    requires 0 <= c < MaxInterval && c == t % MaxInterval
    requires forall k :: 0 <= k < Probes ==> at[k] + c % Intervals[k] == t
    requires c' == (c + 1) % MaxInterval && s' == Release(s, c')
    ensures 0 <= c' < MaxInterval && c' == (t + 1) % MaxInterval
    ensures Scheduled(s', at, c', t + 1)
  {
    TicksStep(t);
    forall k | 0 <= k < Probes
      ensures (c + 1) % MaxInterval % Intervals[k] == (c + 1) % Intervals[k]
      ensures (c + 1) % Intervals[k] == 0 || (c + 1) % Intervals[k] == c % Intervals[k] + 1
    {
      NextCounter(c, Intervals[k]);
    }
  }

  /** The strings of live slots. */
  function Texts(slots: seq<Slot>): (t: seq<string>)
    requires AllLive(slots)
    ensures |t| == |slots| && forall k :: 0 <= k < |slots| ==> Live(t[k]) == slots[k]
  {
    seq(|slots|, k requires 0 <= k < |slots| && AllLive(slots) => slots[k].text)
  }

  /** `smprintf("%s %s %s %s %s  %s ", conn, cpu, mem, temp, batt, tmloc)`. */
  function Compose(t: seq<string>): string
    requires |t| == Probes
  {
    t[ConnSlot] + " " + t[CpuSlot] + " " + t[MemSlot] + " " + t[TempSlot] + " " + t[BattSlot] + "  " + t[TmLocSlot] + " "
  }

  class StatusLoop {
    /** `counter`. */
    var counter: int
    /** `conn`, `cpu`, `mem`, `temp`, `batt`, `tmloc`. */
    var slots: seq<Slot>
    /** The iterations completed so far. */
    ghost var ticks: nat
    /** The iteration in which each slot's string was computed. */
    ghost var setAt: seq<nat>

    /**
     * The schedule's invariant between iterations: the counter is the
     * number of iterations modulo 30; a slot holds a live string exactly
     * when its probe is not due (so the next iteration recomputes every
     * slot that is unset or freed, and only those); and a live string was
     * computed `counter % interval` iterations ago.
     */
    ghost predicate Valid()
      reads this
    {
      && 0 <= counter < MaxInterval && counter == ticks % MaxInterval
      && Scheduled(slots, setAt, counter, ticks)
    }

    /** Before the loop: counter 0 and no slot assigned. */
    constructor ()
      ensures Valid() && ticks == 0
      ensures counter == 0 && forall k :: 0 <= k < Probes ==> slots[k] == Unset
    {
      counter := 0;
      slots := seq(Probes, _ => Unset);
      ticks := 0;
      setAt := seq(Probes, _ => 0);
    }

    /**
     * The state while the status line is shown: the counter has not yet
     * moved, every slot is live, and every slot was computed
     * `counter % interval` iterations back.
     */
    ghost predicate Shown()
      reads this
    {
      && |slots| == Probes && |setAt| == Probes && AllLive(slots)
      && 0 <= counter < MaxInterval && counter == ticks % MaxInterval
      && forall k :: 0 <= k < Probes ==> setAt[k] + counter % Intervals[k] == ticks
    }

    /**
     * The first half of an iteration: every due probe's slot takes its new
     * output, and the six slots are joined into the status line.
     */
    method RefreshDue(outputs: seq<string>) returns (status: string)
      requires Valid() && |outputs| == Probes
      modifies this
      ensures Shown()
      ensures counter == old(counter) && ticks == old(ticks)
      ensures slots == Refresh(old(slots), counter, outputs) && setAt == Stamp(old(setAt), counter, ticks)
      ensures status == Compose(Texts(slots))
    {
      Refreshed(slots, setAt, counter, ticks, outputs);
      slots := Refresh(slots, counter, outputs);
      setAt := Stamp(setAt, counter, ticks);
      status := Compose(Texts(slots));
    }

    /**
     * The second half: the counter moves on modulo 30 and every slot due at
     * its new value is freed, which restores the schedule's invariant.
     */
    method ReleaseDue()
      requires Shown()
      modifies this
      ensures Valid()
      ensures ticks == old(ticks) + 1 && counter == (old(counter) + 1) % MaxInterval
      ensures slots == Release(old(slots), counter) && setAt == old(setAt)
    {
      var next := (counter + 1) % MaxInterval;
      Advanced(slots, setAt, counter, ticks, next, Release(slots, next));
      counter := next;
      ticks := ticks + 1;
      slots := Release(slots, counter);
    }

    /**
     * One iteration of the `for (;;)` loop. Every slot is live when the
     * status line is built, each showing a string computed fewer than its
     * interval iterations ago (the new output when its probe was due);
     * afterwards a slot is freed exactly when its probe is due at the new
     * counter.
     */
    method Step(outputs: seq<string>) returns (status: string)
      requires Valid() && |outputs| == Probes
      modifies this
      ensures Valid()
      ensures ticks == old(ticks) + 1 && counter == (old(counter) + 1) % MaxInterval
      ensures AllLive(Refresh(old(slots), old(counter), outputs))
      ensures status == Compose(Texts(Refresh(old(slots), old(counter), outputs)))
      ensures slots == Release(Refresh(old(slots), old(counter), outputs), counter)
      ensures forall k :: 0 <= k < Probes ==> (slots[k].Freed? <==> Due(counter, k))
      ensures forall k :: 0 <= k < Probes ==>
        && setAt[k] == (if Due(old(counter), k) then old(ticks) else old(setAt[k]))
        && setAt[k] <= old(ticks) < setAt[k] + Intervals[k]
    {
      status := RefreshDue(outputs);
      ReleaseDue();
    }
  }
}
