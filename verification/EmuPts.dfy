/** A PTS exchange with the emulator: a correct request is answered with itself and changes the rate, a wrong one
    is not answered. */
module EmuPts {
  import opened Iso7816
  import opened EmuSpec
  import opened EmuRuns

  function FieldOf(m: PpsMsg, f: PpsField): byte {
    match f
    case PPSS => 0xff
    case PPS0 => m.pps0
    case PPS1 => m.p1
    case PPS2 => m.p2
    case PPS3 => m.p3
    case _ => m.pck
  }

  /** The slots after the bytes of the message from the field `f` on. */
  function Filled(slots: seq<byte>, m: PpsMsg, f: PpsField): (r: seq<byte>)
    requires |slots| == 6
    ensures |r| == 6
    decreases PpsRank(f)
  {
    if f == PpsEnd then slots else Filled(slots[Slot(f) := FieldOf(m, f)], m, NextPps(f, m.pps0))
  }

  /** The used slots are those of the message. */
  predicate HoldsMsg(s: seq<byte>, m: PpsMsg) {
    && |s| == 6 && s[0] == 0xff && s[1] == m.pps0 && s[5] == m.pck
    && (m.pps0 & 0x10 != 0 ==> s[2] == m.p1)
    && (m.pps0 & 0x20 != 0 ==> s[3] == m.p2)
    && (m.pps0 & 0x40 != 0 ==> s[4] == m.p3)
  }

  lemma FilledHolds(slots: seq<byte>, m: PpsMsg)
    requires |slots| == 6
    ensures HoldsMsg(Filled(slots, m, PPSS), m)
  {
    var s1 := slots[0 := 0xff][1 := m.pps0];
    assert Filled(slots, m, PPSS) == Filled(slots[0 := 0xff], m, PPS0);
    assert Filled(slots[0 := 0xff], m, PPS0) == Filled(s1, m, NextPps(PPS0, m.pps0));
    var s2 := if m.pps0 & 0x10 != 0 then s1[2 := m.p1] else s1;
    assert Filled(s1, m, NextPps(PPS0, m.pps0)) == Filled(s2, m, NextPps(PPS1, m.pps0));
    var s3 := if m.pps0 & 0x20 != 0 then s2[3 := m.p2] else s2;
    assert Filled(s2, m, NextPps(PPS1, m.pps0)) == Filled(s3, m, NextPps(PPS2, m.pps0));
    var s4 := if m.pps0 & 0x40 != 0 then s3[4 := m.p3] else s3;
    assert Filled(s3, m, NextPps(PPS2, m.pps0)) == Filled(s4, m, PCK);
    assert Filled(s4, m, PCK) == Filled(s4[5 := m.pck], m, PpsEnd) == s4[5 := m.pck];
  }

  lemma SerializeHolds(s: seq<byte>, m: PpsMsg)
    requires HoldsMsg(s, m)
    ensures Serialize(s) == PpsBytes(m)
    ensures m.pck == Csum(s) <==> PpsValid(m)
  {
    SlotsAreBytes(s, m);
    LastIsPck(m);
    LastXor(PpsBytes(m), m.pck);
  }

  lemma SlotsAreBytes(s: seq<byte>, m: PpsMsg)
    requires HoldsMsg(s, m)
    ensures Serialize(s) == PpsBytes(m)
  {
  }

  lemma LastIsPck(m: PpsMsg)
    ensures var b := PpsBytes(m); b[|b| - 1] == m.pck
  {
    var t3 := (if m.pps0 & 0x40 != 0 then [m.p3] else []) + [m.pck];
    var t2 := (if m.pps0 & 0x20 != 0 then [m.p2] else []) + t3;
    var t1 := (if m.pps0 & 0x10 != 0 then [m.p1] else []) + t2;
    assert t3[|t3| - 1] == m.pck;
    assert t2[|t2| - 1] == m.pck;
    assert t1[|t1| - 1] == m.pck;
    assert PpsBytes(m) == [0xff, m.pps0] + t1;
  }

  /** The last byte is the XOR of the others iff all bytes XOR to zero. */
  lemma LastXor(b: seq<byte>, pck: byte)
    requires |b| > 0 && b[|b| - 1] == pck
    ensures pck == XorAll(b[..|b| - 1]) <==> XorAll(b) == 0
  {
    var n := |b| - 1;
    assert b == b[..n] + [pck];
    XorConcat(b[..n], [pck]);
    assert XorAll([pck]) == pck;
  }

  // ---------------------------------------------------------------- the bytes of a message, by number

  function FieldAt(m: PpsMsg, k: nat): PpsField {
    if k == 0 then PPSS else NextPps(FieldAt(m, k - 1), m.pps0)
  }

  lemma {:induction false} FieldAtFrom(m: PpsMsg, k: nat)
    requires k <= |PpsBytes(m)|
    ensures PpsFrom(m, FieldAt(m, k)) == PpsBytes(m)[k..]
  {
    if k == 0 {
      PpsFromStart(m);
    } else {
      FieldAtFrom(m, k - 1);
      assert PpsBytes(m)[k - 1..][1..] == PpsBytes(m)[k..];
    }
  }

  /** The `k`-th byte and what it is. */
  lemma FieldAtIs(m: PpsMsg, k: nat)
    requires k <= |PpsBytes(m)|
    ensures var n, f := |PpsBytes(m)|, FieldAt(m, k);
      && (k < n ==> PpsBytes(m)[k] == FieldOf(m, f) && f != PpsEnd)
      && (k == n ==> f == PpsEnd)
      && (f == PCK <==> k == n - 1)
  {
    var n, f := |PpsBytes(m)|, FieldAt(m, k);
    FieldAtFrom(m, k);
    assert f != PpsEnd ==> PpsFrom(m, f)[0] == FieldOf(m, f);
    if k < n {
      FieldAtFrom(m, k + 1);
      assert PpsBytes(m)[k..][1..] == PpsBytes(m)[k + 1..];
    }
  }

  /** Only the third byte can be PTS1. */
  lemma {:induction false} FieldAtPps1(m: PpsMsg, k: nat)
    ensures FieldAt(m, k) == PPS1 <==> k == 2 && m.pps0 & 0x10 != 0
    ensures k > 0 ==> FieldAt(m, k) != PPSS
    ensures k > 1 ==> FieldAt(m, k) != PPS0
    ensures k == 1 ==> FieldAt(m, k) == PPS0
  {
    if k > 0 {
      FieldAtPps1(m, k - 1);
    }
  }

  // ---------------------------------------------------------------- the request

  /** The rates are those of `e0`, nothing was sent since, and the host was told `told`. */
  predicate Unchanged(e: Emu, e0: Emu, told: seq<ToHost>) {
    && e.f == e0.f && e.d == e0.d && e.fidi == e0.fidi && e.wi == e0.wi && e.wt == e0.wt
    && Wire(e.log) == Wire(e0.log) && e.toHost == e0.toHost + told
  }

  /** `k` bytes of the request are there, since the emulator waited in `e0`. */
  ghost predicate ReqAt(e: Emu, e0: Emu, m: PpsMsg, k: nat) {
    && Inv(e) && Shaped(e0) && k < |PpsBytes(m)| && Unchanged(e, e0, [])
    && (if k == 0 then e.iso == WaitTpdu else e.iso == InPts && !e.pts.resp && e.pts.field == FieldAt(m, k))
    && (k >= 2 ==> e.pts.reqSlots[1] == m.pps0)
    && Filled(e.pts.reqSlots, m, FieldAt(m, k)) == Filled(e0.pts.reqSlots, m, PPSS)
  }

  lemma ReqFirst(e: Emu)
    requires Inv(e) && e.iso == WaitTpdu
    ensures RxByte(e, 0xff)
      == e.(iso := InPts, pts := e.pts.(resp := false, field := PPS0, reqSlots := e.pts.reqSlots[0 := 0xff]))
  {
  }

  lemma ReqNext(e: Emu, b: byte)
    requires Inv(e) && e.iso == InPts && !e.pts.resp && e.pts.field !in {PPSS, PCK}
    ensures var slots := e.pts.reqSlots[Slot(e.pts.field) := b];
      RxByte(e, b) == e.(pts := e.pts.(field := NextPps(e.pts.field, slots[1]), reqSlots := slots))
  {
  }

  /** A byte of the request other than PCK. */
  lemma ReqByte(e: Emu, e0: Emu, m: PpsMsg, k: nat)
    requires ReqAt(e, e0, m, k) && k < |PpsBytes(m)| - 1
    ensures ReqAt(RxByte(e, PpsBytes(m)[k]), e0, m, k + 1)
  {
    ReaderKeeps(e, PpsBytes(m)[k]);
    FieldAtIs(m, k);
    FieldAtPps1(m, k);
    if k == 0 {
      ReqFirst(e);
    } else {
      ReqNext(e, PpsBytes(m)[k]);
    }
  }

  lemma ReqCalm(e: Emu, e0: Emu, m: PpsMsg, k: nat, ev: Event)
    requires ReqAt(e, e0, m, k) && Calm(ev)
    ensures ReqAt(Step(e, ev), e0, m, k)
  {
    StepKeeps(e, ev);
    match ev
    case TxReady => assert OnTxReady(e) == e;
    case TimerRound => TimerOnlyCounts(e);
    case HostTx(h) => HostOnlyQueues(e, h);
    ReqSame(e, Step(e, ev), e0, m, k);
  }

  /** The request is where it was. */
  lemma ReqSame(e: Emu, e1: Emu, e0: Emu, m: PpsMsg, k: nat)
    requires ReqAt(e, e0, m, k) && Inv(e1) && Wire(e1.log) == Wire(e.log)
    requires e1 == e.(timer := e1.timer, queue := e1.queue, log := e1.log)
    ensures ReqAt(e1, e0, m, k)
  {
  }

  /** The reader sends, and nothing happens to the lines or the ATR. */
  predicate Requesting(evs: seq<Event>): (r: bool)
    ensures r ==> AllProper(evs)
  {
    evs != [] ==> (Calm(evs[0]) || evs[0].Reader?) && Requesting(evs[1..])
  }

  lemma FirstReader(evs: seq<Event>, b: seq<byte>, k: nat)
    requires evs != [] && evs[0].Reader? && k < |b| && Readers(evs) == b[k..|b| - 1]
    ensures k < |b| - 1 && evs[0].b == b[k] && Readers(evs[1..]) == b[k + 1..|b| - 1]
  {
    assert Readers(evs) == [evs[0].b] + Readers(evs[1..]);
    assert Readers(evs)[1..] == Readers(evs[1..]);
  }

  lemma ReqStep(e: Emu, e0: Emu, m: PpsMsg, k: nat, evs: seq<Event>) returns (k1: nat)
    requires ReqAt(e, e0, m, k) && evs != [] && Requesting(evs)
    requires Readers(evs) == PpsBytes(m)[k..|PpsBytes(m)| - 1]
    ensures ReqAt(Step(e, evs[0]), e0, m, k1) && Readers(evs[1..]) == PpsBytes(m)[k1..|PpsBytes(m)| - 1]
  {
    if evs[0].Reader? {
      ReqStepReader(e, e0, m, k, evs);
      k1 := k + 1;
    } else {
      ReqCalm(e, e0, m, k, evs[0]);
      NotReader(evs);
      k1 := k;
    }
  }

  lemma ReqStepReader(e: Emu, e0: Emu, m: PpsMsg, k: nat, evs: seq<Event>)
    requires ReqAt(e, e0, m, k) && evs != [] && evs[0].Reader?
    requires Readers(evs) == PpsBytes(m)[k..|PpsBytes(m)| - 1]
    ensures ReqAt(Step(e, evs[0]), e0, m, k + 1) && Readers(evs[1..]) == PpsBytes(m)[k + 1..|PpsBytes(m)| - 1]
  {
    FirstReader(evs, PpsBytes(m), k);
    ReqByte(e, e0, m, k);
  }

  lemma NotReader(evs: seq<Event>)
    requires evs != [] && !evs[0].Reader?
    ensures Readers(evs[1..]) == Readers(evs)
  {
    assert Readers(evs) == [] + Readers(evs[1..]);
  }

  lemma {:induction false} ReqRuns(e: Emu, e0: Emu, m: PpsMsg, k: nat, evs: seq<Event>)
    requires ReqAt(e, e0, m, k) && Requesting(evs) && Readers(evs) == PpsBytes(m)[k..|PpsBytes(m)| - 1]
    ensures ReqAt(Run(e, evs), e0, m, |PpsBytes(m)| - 1)
    decreases |evs|
  {
    if evs == [] {
      assert k == |PpsBytes(m)| - 1;
    } else {
      var k1 := ReqStep(e, e0, m, k, evs);
      ReqRuns(Step(e, evs[0]), e0, m, k1, evs[1..]);
    }
  }

  /** PCK comes. */
  lemma ReqLast(e: Emu, e0: Emu, m: PpsMsg)
    requires ReqAt(e, e0, m, |PpsBytes(m)| - 1)
    ensures var slots := Filled(e0.pts.reqSlots, m, PPSS); var e1 := e.(pts := e.pts.(reqSlots := slots));
      && HoldsMsg(slots, m) && Shaped(e1) && RxByte(e, m.pck) == PtsCheck(e1, m.pck)
      && Serialize(slots) == PpsBytes(m) && (m.pck == Csum(slots) <==> PpsValid(m))
  {
    var slots := Filled(e0.pts.reqSlots, m, PPSS);
    FilledHolds(e0.pts.reqSlots, m);
    SerializeHolds(slots, m);
    PckExpected(e, e0, m);
    PckByte(e, m.pck);
  }

  lemma PckExpected(e: Emu, e0: Emu, m: PpsMsg)
    requires ReqAt(e, e0, m, |PpsBytes(m)| - 1)
    ensures e.iso == InPts && !e.pts.resp && e.pts.field == PCK
    ensures e.pts.reqSlots[5 := m.pck] == Filled(e0.pts.reqSlots, m, PPSS)
  {
    FieldAtIs(m, |PpsBytes(m)| - 1);
    LastSlot(e.pts.reqSlots, m);
  }

  lemma LastSlot(slots: seq<byte>, m: PpsMsg)
    requires |slots| == 6
    ensures Filled(slots, m, PCK) == slots[5 := m.pck]
  {
    assert Filled(slots, m, PCK) == Filled(slots[5 := m.pck], m, PpsEnd);
  }

  lemma PckByte(e: Emu, b: byte)
    requires Inv(e) && e.iso == InPts && !e.pts.resp && e.pts.field == PCK
    ensures var e1 := e.(pts := e.pts.(reqSlots := e.pts.reqSlots[5 := b]));
      Shaped(e1) && RxByte(e, b) == PtsCheck(e1, b)
  {
  }

  // ---------------------------------------------------------------- the response

  /** The emulator has taken the request since `e0`, and its transmitter got ready `k` times: so many bytes of the
      response are out, and nothing else; the rate is that of `e0` until the last one is, and then the new one. */
  ghost predicate RespAt(e: Emu, e0: Emu, m: PpsMsg, k: nat) {
    var b := PpsBytes(m);
    var named := m.pps0 & 0x10 != 0 && k > 2;
    && Inv(e) && k <= |b|
    && e.f == (if named then High(m.p1) else e0.f) && e.d == (if named then Low(m.p1) else e0.d) && e.wi == e0.wi
    && Wire(e.log) == Wire(e0.log) + b[..k] && e.toHost == e0.toHost + [PtsInfo(b, b)]
    && (k < |b| ==>
          && e.iso == InPts && e.pts.resp && e.pts.field == FieldAt(m, k) && HoldsMsg(e.pts.respSlots, m)
          && e.fidi == e0.fidi && e.wt == e0.wt)
    && (k == |b| ==>
          && e.iso == WaitTpdu
          && e.fidi == RatioAfter(e0.fidi, e.f, e.d) && e.wt == e.wi * 960 * WholeD(e.d))
  }

  /** One byte of the response. */
  lemma ResponseByte(e: Emu, m: PpsMsg, f: PpsField)
    requires Inv(e) && e.iso == InPts && e.pts.resp && e.pts.field == f && HoldsMsg(e.pts.respSlots, m)
    requires f == PPS1 ==> m.pps0 & 0x10 != 0
    requires f == PPS2 ==> m.pps0 & 0x20 != 0
    requires f == PPS3 ==> m.pps0 & 0x40 != 0
    ensures var e1 := e.(f := if f == PPS1 then High(m.p1) else e.f, d := if f == PPS1 then Low(m.p1) else e.d,
                         log := e.log + [Sent(FieldOf(m, f), FromPts)]);
      OnTxReady(e) == if f == PCK then PtsDone(e1) else e1.(pts := e1.pts.(field := NextPps(f, m.pps0)))
  {
  }

  lemma PtsDoneIs(e: Emu)
    requires e.iso == InPts && e.tpdu == WaitCla
    ensures PtsDone(e) == e.(fidi := RatioAfter(e.fidi, e.f, e.d), wt := e.wi * 960 * WholeD(e.d),
                             iso := WaitTpdu, uart := RxOn, pts := e.pts.(resp := false, field := PPSS))
  {
    UartRatioIs(e.fidi, e.f, e.d);
    WaitingTimeIs(e.wi, e.d);
  }

  /** A field is only reached if PTS0 names it. */
  lemma FieldAtNamed(m: PpsMsg, k: nat)
    ensures var f := FieldAt(m, k);
      && (f == PPS1 ==> m.pps0 & 0x10 != 0) && (f == PPS2 ==> m.pps0 & 0x20 != 0) && (f == PPS3 ==> m.pps0 & 0x40 != 0)
  {
  }

  lemma RespReady(e: Emu, e0: Emu, m: PpsMsg, k: nat)
    requires RespAt(e, e0, m, k) && k < |PpsBytes(m)|
    ensures RespAt(OnTxReady(e), e0, m, k + 1)
  {
    TxReadyKeeps(e);
    FieldAtIs(m, k);
    FieldAtPps1(m, k);
    FieldAtNamed(m, k);
    ResponseByte(e, m, FieldAt(m, k));
    OneMoreSent(e.log, Wire(e0.log), PpsBytes(m), k);
    if FieldAt(m, k) == PCK {
      RespLast(e, e0, m, k);
    } else {
      RespMore(e, e0, m, k);
    }
  }

  lemma RespMore(e: Emu, e0: Emu, m: PpsMsg, k: nat)
    requires RespAt(e, e0, m, k) && k < |PpsBytes(m)| - 1 && Inv(OnTxReady(e))
    requires FieldAt(m, k) == PPS1 <==> k == 2 && m.pps0 & 0x10 != 0
    requires var e1 := OnTxReady(e);
      && e1 == e.(f := if FieldAt(m, k) == PPS1 then High(m.p1) else e.f,
                  d := if FieldAt(m, k) == PPS1 then Low(m.p1) else e.d,
                  log := e1.log, pts := e.pts.(field := FieldAt(m, k + 1)))
      && Wire(e1.log) == Wire(e0.log) + PpsBytes(m)[..k + 1]
    ensures RespAt(OnTxReady(e), e0, m, k + 1)
  {
  }

  lemma OneMoreSent(log: seq<Entry>, before: seq<byte>, b: seq<byte>, k: nat)
    requires k < |b| && Wire(log) == before + b[..k]
    ensures Wire(log + [Sent(b[k], FromPts)]) == before + b[..k + 1]
  {
    WireGrows(log, Sent(b[k], FromPts));
  }

  lemma RespLast(e: Emu, e0: Emu, m: PpsMsg, k: nat)
    requires RespAt(e, e0, m, k) && k == |PpsBytes(m)| - 1 && Inv(OnTxReady(e))
    requires var e1 := e.(log := e.log + [Sent(m.pck, FromPts)]);
      OnTxReady(e) == PtsDone(e1) && Wire(e1.log) == Wire(e0.log) + PpsBytes(m)[..k + 1]
    ensures RespAt(OnTxReady(e), e0, m, k + 1)
  {
    PtsDoneIs(e.(log := e.log + [Sent(m.pck, FromPts)]));
  }

  function Min(a: nat, b: nat): nat {
    if a < b then a else b
  }

  function Answered(m: PpsMsg, k: nat): nat {
    Min(k, |PpsBytes(m)|)
  }

  lemma RespStep(e: Emu, e0: Emu, m: PpsMsg, k: nat, ev: Event)
    requires RespAt(e, e0, m, k) && Calm(ev)
    ensures RespAt(Step(e, ev), e0, m, if ev.TxReady? then Answered(m, k + 1) else k)
  {
    StepKeeps(e, ev);
    match ev
    case TxReady => if k < |PpsBytes(m)| { RespReady(e, e0, m, k); } else { assert OnTxReady(e) == e; }
    case TimerRound => TimerOnlyCounts(e);
    case HostTx(h) => HostOnlyQueues(e, h);
  }

  function Reached(m: PpsMsg, k: nat, evs: seq<Event>): nat
    decreases |evs|
  {
    if evs == [] then k else Reached(m, if evs[0].TxReady? then Answered(m, k + 1) else k, evs[1..])
  }

  lemma {:induction false} RespRuns(e: Emu, e0: Emu, m: PpsMsg, k: nat, evs: seq<Event>)
    requires RespAt(e, e0, m, k) && AllCalm(evs)
    ensures RespAt(Run(e, evs), e0, m, Reached(m, k, evs))
    decreases |evs|
  {
    if evs != [] {
      StepKeeps(e, evs[0]);
      RespStep(e, e0, m, k, evs[0]);
      RespRuns(Step(e, evs[0]), e0, m, if evs[0].TxReady? then Answered(m, k + 1) else k, evs[1..]);
    }
  }

  lemma {:induction false} ReachedIs(m: PpsMsg, k: nat, evs: seq<Event>)
    requires k <= |PpsBytes(m)|
    ensures Reached(m, k, evs) == Answered(m, k + Count(evs))
    decreases |evs|
  {
    if evs != [] {
      ReachedIs(m, if evs[0].TxReady? then Answered(m, k + 1) else k, evs[1..]);
      MinAdds(k + 1, Count(evs[1..]), |PpsBytes(m)|);
    }
  }

  /** One byte each time the transmitter gets ready. */
  lemma RespCounted(e: Emu, e0: Emu, m: PpsMsg, evs: seq<Event>)
    requires RespAt(e, e0, m, 0) && AllCalm(evs)
    ensures RespAt(Run(e, evs), e0, m, Answered(m, Count(evs)))
  {
    RespRuns(e, e0, m, 0, evs);
    ReachedIs(m, 0, evs);
    assert Reached(m, 0, evs) == Answered(m, Count(evs));
  }

  lemma MinAdds(k: nat, more: nat, n: nat)
    ensures Min(Min(k, n) + more, n) == Min(k + more, n)
  {
  }

  /** What the emulator is in after the bytes of a request, `before` being all that happens until PCK comes. */
  function Asked(e: Emu, m: PpsMsg, before: seq<Event>): Emu
    requires Inv(e) && Requesting(before)
    ensures Inv(Asked(e, m, before))
  {
    ReaderKeeps(Run(e, before), m.pck);
    RxByte(Run(e, before), m.pck)
  }

  /** The last byte of a request comes when all others are there. */
  lemma PtsComplete(e: Emu, m: PpsMsg, before: seq<Event>)
    requires Inv(e) && e.iso == WaitTpdu
    requires Requesting(before) && Readers(before) == PpsBytes(m)[..|PpsBytes(m)| - 1]
    ensures ReqAt(Run(e, before), e, m, |PpsBytes(m)| - 1)
  {
    var b := PpsBytes(m);
    assert b[0..|b| - 1] == b[..|b| - 1] && e.toHost + [] == e.toHost;
    ReqRuns(e, e, m, 0, before);
  }

  /** After a correct request no byte of the response is out. */
  lemma PtsAsked(e: Emu, m: PpsMsg, before: seq<Event>)
    requires Inv(e) && e.iso == WaitTpdu && PpsValid(m)
    requires Requesting(before) && Readers(before) == PpsBytes(m)[..|PpsBytes(m)| - 1]
    ensures RespAt(Asked(e, m, before), e, m, 0)
  {
    PtsComplete(e, m, before);
    ReqLast(Run(e, before), e, m);
    assert Wire(e.log) + PpsBytes(m)[..0] == Wire(e.log);
  }

  /** A correct request, with any subset of PTS1 to PTS3, in every order with timer rounds, the transmitter and messages
      of the host: it is told to the host; as long as no byte comes from the reader, after the transmitter got ready `n`
      times exactly the first `n` bytes of the request are transmitted back, and nothing else; baud rate and waiting
      time stay until PCK is sent and are then those of the new F and D; and the emulator waits for a TPDU. */
  lemma PtsEcho(e: Emu, m: PpsMsg, before: seq<Event>, after: seq<Event>)
    requires Inv(e) && e.iso == WaitTpdu && PpsValid(m)
    requires Requesting(before) && Readers(before) == PpsBytes(m)[..|PpsBytes(m)| - 1]
    requires AllCalm(after)
    ensures RespAt(Run(Asked(e, m, before), after), e, m, Answered(m, Count(after)))
  {
    PtsAsked(e, m, before);
    RespCounted(Asked(e, m, before), e, m, after);
  }

  /** A wrong PCK: nothing is sent or told, no rate changes, and the emulator waits for a TPDU. */
  lemma PtsRefused(e: Emu, m: PpsMsg, before: seq<Event>)
    requires Inv(e) && e.iso == WaitTpdu && !PpsValid(m)
    requires Requesting(before) && Readers(before) == PpsBytes(m)[..|PpsBytes(m)| - 1]
    ensures var r := Asked(e, m, before); Unchanged(r, e, []) && r.iso == WaitTpdu && r.tpdu == WaitCla
  {
    PtsComplete(e, m, before);
    ReqLast(Run(e, before), e, m);
  }
}
