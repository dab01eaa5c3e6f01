/** The waiting time of the emulated card (firmware/libcommon/source/mode_cardemu.c): a 32-bit number of etu counted
    down in rounds of a 16-bit hardware counter. */
module WaitTime {

  /** `ci->wt` and the reload register of the counter. */
  datatype Wt = Wt(total: nat, remaining: nat, half: bool, rtor: nat)

  /** What the end of a round tells the card: nothing, half of the time is over, all of it is. */
  datatype Tick = Quiet | Half | Expired

  const COUNTER_MAX := 0xffff

  /** The condition of the `OSMO_ASSERT` in `compute_next_timeout`. */
  predicate AssertHolds(total: nat, remaining: nat, half: bool) {
    total == 0 || half || remaining > total / 2
  }

  /** `compute_next_timeout` */
  function NextTimeout(total: nat, remaining: nat, half: bool): nat
    requires AssertHolds(total, remaining, half)
  {
    if total == 0 then 0
    else
      var want := if half then remaining else remaining - total / 2;
      if want < COUNTER_MAX then want else COUNTER_MAX
  }

  /** `card_emu_uart_update_wt`; `card_emu_uart_reset_wt` starts the same total again. */
  function Start(total: nat): (w: Wt)
    ensures Live(w)
  {
    Wt(total, total, false, NextTimeout(total, total, false))
  }

  /** The counter is loaded with the distance to the next thing to tell, as far as it fits. */
  ghost predicate Live(w: Wt) {
    && (w.half ==> w.remaining <= w.total / 2)
    && (w.total > 0 && w.remaining > 0 ==>
          && AssertHolds(w.total, w.remaining, w.half)
          && var want := if w.half then w.remaining else w.remaining - w.total / 2;
          w.rtor == if want < 0xffff then want else 0xffff)
    && w.remaining <= w.total && w.rtor <= 0xffff
    && (w.total == 0 ==> w.rtor == 0)
  }

  /** The timeout part of `usart_irq_rx`: a round of `rtor` etu is over. */
  function Timeout(w: Wt): (r: (Wt, Tick))
    requires Live(w)
    ensures Live(r.0) && r.0.total == w.total
    ensures r.1 == Expired <==> r.0.remaining == 0
    ensures r.1 == Half <==> r.0.remaining > 0 && r.0.half && !w.half
  {
    var left := if w.remaining <= w.rtor then 0 else w.remaining - w.rtor;
    if left == 0 then (w.(remaining := 0), Expired)
    else
      var half := w.half || left <= w.total / 2;
      (Wt(w.total, left, half, NextTimeout(w.total, left, half)), if half && !w.half then Half else Quiet)
  }

  // ---------------------------------------------------------------- exact times

  datatype Stamp = Stamp(at: nat, tick: Tick)

  /** Everything the card is told, with the time since the start, if nothing starts the countdown again. */
  function Told(w: Wt, now: nat): seq<Stamp>
    requires Live(w) && w.remaining > 0
    decreases w.remaining
  {
    var (w1, tick) := Timeout(w);
    var at := now + w.rtor;
    if tick == Expired then [Stamp(at, Expired)]
    else (if tick == Half then [Stamp(at, Half)] else []) + Told(w1, at)
  }

  lemma {:induction false} ToldFrom(w: Wt, now: nat)
    requires Live(w) && 0 < w.remaining && (w.total >= 2 || w.half)
    ensures Told(w, now) ==
      (if w.half then [] else [Stamp(now + w.remaining - w.total / 2, Half)]) + [Stamp(now + w.remaining, Expired)]
    decreases w.remaining
  {
    var (w1, tick) := Timeout(w);
    if tick != Expired {
      ToldFrom(w1, now + w.rtor);
    }
  }

  /** Whatever the number of rounds: half time is told once, after total - total/2 etu, and the end after exactly
      the total. */
  lemma ExactTimes(total: nat)
    requires total >= 2
    ensures Told(Start(total), 0) == [Stamp(total - total / 2, Half), Stamp(total, Expired)]
  {
    ToldFrom(Start(total), 0);
  }

  /** A total of one etu has no half time. */
  lemma OneEtu()
    ensures Told(Start(1), 0) == [Stamp(1, Expired)]
  {
  }

  /** `n` rounds, with the countdown started again whenever half time is told. */
  ghost function Extended(w: Wt, n: nat): Wt
    requires Live(w)
    ensures Live(Extended(w, n))
    decreases n
  {
    if n == 0 then w
    else
      var (w1, tick) := Timeout(w);
      Extended(if tick == Half then Start(w1.total) else w1, n - 1)
  }

  /** A countdown that is started again at half time never ends. */
  lemma {:induction false} ExtendedNeverExpires(w: Wt, n: nat)
    requires Live(w) && !w.half && w.remaining > 0 && w.total >= 2
    ensures var w1 := Extended(w, n); !w1.half && w1.remaining > w1.total / 2 && Timeout(w1).1 != Expired
    decreases n
  {
    if n > 0 {
      var (w1, tick) := Timeout(w);
      ExtendedNeverExpires(if tick == Half then Start(w1.total) else w1, n - 1);
    }
  }

  /** `struct cardem_inst`, as far as the waiting time goes. */
  class WaitTimer {
    var total: nat
    var remaining: nat
    var half: bool
    var rtor: nat

    constructor ()
      ensures State() == Start(0)
    {
      total, remaining, half, rtor := 0, 0, false, 0;
    }

    function State(): Wt
      reads this
    {
      Wt(total, remaining, half, rtor)
    }

    /** The precondition is the assertion in the code. */
    method ComputeNextTimeout() returns (next: nat)
      requires AssertHolds(total, remaining, half)
      ensures next == NextTimeout(total, remaining, half)
    {
      if total == 0 {
        return 0;
      }
      var wantToExpire := remaining;
      if !half {
        assert remaining > total / 2;
        wantToExpire := remaining - total / 2;
      }
      next := if wantToExpire < COUNTER_MAX then wantToExpire else COUNTER_MAX;
    }

    method UpdateWt(wt: nat)
      modifies this
      ensures State() == Start(wt)
    {
      total := wt;
      ResetWt();
    }

    method ResetWt()
      modifies this
      ensures State() == Start(old(total))
    {
      remaining := total;
      half := false;
      rtor := ComputeNextTimeout();
    }

    /** A round of the counter is over. */
    method OnTimeout() returns (tick: Tick)
      requires Live(State())
      modifies this
      ensures (State(), tick) == Timeout(old(State()))
    {
      if remaining <= rtor {
        remaining := 0;
      } else {
        remaining := remaining - rtor;
      }
      if remaining == 0 {
        return Expired;
      }
      tick := Quiet;
      if remaining <= total / 2 && !half {
        half := true;
        tick := Half;
      }
      rtor := ComputeNextTimeout();
    }
  }
}
