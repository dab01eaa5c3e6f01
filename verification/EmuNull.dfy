/** How often the emulated card asks for more time while it waits for the host. */
module EmuNull {
  import opened Iso7816
  import opened WaitTime
  import opened EmuSpec
  import opened EmuRuns

  /** The card waits for the host, or transmits, and its timer interrupt is on. */
  ghost predicate Waiting(e: Emu) {
    Inv(e) && e.iso == InTpdu && e.tpdu in {WaitPb, WaitTx} && e.uart in {TxOn, TimerOnly}
  }

  lemma RoundWaits(e: Emu)
    requires Waiting(e)
    ensures var e1, half := OnTimeout(e), Timeout(e.timer).1 == Half;
      && Waiting(e1) && e1 == e.(timer := e1.timer, log := e1.log)
      && e1.log == e.log + (if half then [Sent(0x60, NullByte)] else [])
      && e1.timer.total == e.timer.total == e.wt
      && (if half then e.timer.remaining - e.timer.rtor == e.wt / 2 && e1.timer.remaining == e.wt
          else e1.timer.remaining == e.timer.remaining - e.timer.rtor)
  {
    TimeoutKeeps(e);
    StillWaits(e);
  }

  lemma StillWaits(e: Emu)
    requires Waiting(e)
    ensures var (w, tick) := Timeout(e.timer);
      && TimerRuns(e) && tick != Expired && w.total == e.wt
      && w.remaining == e.timer.remaining - e.timer.rtor
      && (tick == Half ==> w.remaining == e.wt / 2)
  {
  }

  /** `n` rounds of the counter, and nothing else. */
  function Rounds(e: Emu, n: nat): (r: Emu)
    requires Inv(e)
    ensures Inv(r)
    decreases n
  {
    if n == 0 then e
    else
      TimeoutKeeps(e);
      Rounds(OnTimeout(e), n - 1)
  }

  /** How long they take, in etu. */
  function Etu(e: Emu, n: nat): nat
    requires Inv(e)
    decreases n
  {
    if n == 0 then 0
    else
      TimeoutKeeps(e);
      e.timer.rtor + Etu(OnTimeout(e), n - 1)
  }

  function Nulls(k: nat): seq<byte> {
    if k == 0 then [] else [0x60] + Nulls(k - 1)
  }

  /** `k` NULL bytes were sent in `etu`, and the rest of the time is counted down. */
  ghost predicate Asked(e: Emu, r: Emu, etu: nat, k: nat) {
    && Waiting(r) && r.wt == e.wt && Wire(r.log) == Wire(e.log) + Nulls(k) && r.timer.remaining <= r.wt
    && (e.wt - e.timer.remaining) + etu == k * (e.wt - e.wt / 2) + (r.wt - r.timer.remaining)
  }

  lemma RoundAsked(e: Emu, r: Emu, etu: nat, k: nat)
    requires Waiting(e) && Asked(OnTimeout(e), r, etu, k)
    ensures Asked(e, r, e.timer.rtor + etu, if Timeout(e.timer).1 == Half then k + 1 else k)
  {
    RoundWaits(e);
    WireOfRound(e);
    if Timeout(e.timer).1 == Half {
      assert Wire(e.log) + [0x60] + Nulls(k) == Wire(e.log) + Nulls(k + 1);
      OneMore(k, e.wt - e.wt / 2);
    }
  }

  lemma WireOfRound(e: Emu)
    requires Waiting(e)
    ensures Wire(OnTimeout(e).log) == if Timeout(e.timer).1 == Half then Wire(e.log) + [0x60] else Wire(e.log)
  {
    RoundWaits(e);
    WireGrows(e.log, Sent(0x60, NullByte));
  }

  lemma OneMore(k: nat, half: nat)
    ensures (k + 1) * half == k * half + half
  {
  }

  lemma {:induction false} NullsBefore(e: Emu, n: nat) returns (k: nat)
    requires Waiting(e)
    ensures Asked(e, Rounds(e, n), Etu(e, n), k)
    decreases n
  {
    k := 0;
    if n == 0 {
      assert Wire(e.log) + [] == Wire(e.log);
    } else {
      RoundWaits(e);
      k := NullsBefore(OnTimeout(e), n - 1);
      RoundAsked(e, Rounds(e, n), Etu(OnTimeout(e), n - 1), k);
      k := if Timeout(e.timer).1 == Half then k + 1 else k;
    }
  }

  /** From the moment it starts to wait, whatever the number of rounds: one NULL byte for each WT - WT/2 etu that have
      passed, WT being the waiting time, and nothing else. */
  lemma NullBytesOnTime(e: Emu, n: nat) returns (k: nat)
    requires Waiting(e) && e.timer == Start(e.wt)
    ensures Wire(Rounds(e, n).log) == Wire(e.log) + Nulls(k)
    ensures var half := e.wt - e.wt / 2; k * half <= Etu(e, n) < (k + 1) * half
  {
    k := NullsBefore(e, n);
    OneMore(k, e.wt - e.wt / 2);
    assert Timed(Rounds(e, n));
  }
}
