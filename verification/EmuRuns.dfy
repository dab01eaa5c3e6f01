/** What holds in every run of the emulator, its calls being atomic. */
module EmuRuns {
  import opened Iso7816
  import opened WaitTime
  import opened EmuSpec

  /** Events the firmware can see: the host never sends an empty data message. */
  predicate Proper(ev: Event) {
    ev.HostTx? ==> ev.m.data != []
  }

  predicate AllProper(evs: seq<Event>) {
    evs != [] ==> Proper(evs[0]) && AllProper(evs[1..])
  }

  // ---------------------------------------------------------------- data of the host since the last reset

  /** Accepted since the last reset. */
  function Offered(log: seq<Entry>): seq<byte> {
    if log == [] then []
    else
      var rest, last := Offered(log[..|log| - 1]), log[|log| - 1];
      if last.Cleared? then [] else if last.Accepted? then rest + last.data else rest
  }

  /** Transmitted since the last reset. */
  function Played(log: seq<Entry>): seq<byte> {
    if log == [] then []
    else
      var rest, last := Played(log[..|log| - 1]), log[|log| - 1];
      if last.Cleared? then [] else if last.Sent? && last.source == FromHost then rest + [last.b] else rest
  }

  lemma LogGrows(log: seq<Entry>, x: Entry)
    ensures Offered(log + [x])
      == if x.Cleared? then [] else if x.Accepted? then Offered(log) + x.data else Offered(log)
    ensures Played(log + [x])
      == if x.Cleared? then [] else if x.Sent? && x.source == FromHost then Played(log) + [x.b] else Played(log)
  {
    assert (log + [x])[..|log|] == log;
  }

  function Flat(q: seq<TxMsg>): seq<byte> {
    if q == [] then [] else q[0].data + Flat(q[1..])
  }

  lemma {:induction false} FlatAppend(q: seq<TxMsg>, m: TxMsg)
    ensures Flat(q + [m]) == Flat(q) + m.data
    decreases |q|
  {
    if q == [] {
      assert q + [m] == [m] && [m][1..] == [];
    } else {
      assert (q + [m])[1..] == q[1..] + [m];
      FlatAppend(q[1..], m);
    }
  }

  /** Not transmitted yet. */
  function Pending(e: Emu): seq<byte> {
    (if e.tx.Some? then e.tx.value.data else []) + Flat(e.queue)
  }

  // ---------------------------------------------------------------- the invariant

  predicate Inactive(e: Emu) {
    e.iso in {WaitPower, WaitClk, WaitRst}
  }

  /** A card that talks, or waits for its ATR, has power and is out of reset. */
  predicate Powered(e: Emu) {
    !Inactive(e) ==> e.vcc && !e.inReset
  }

  /** Data of the host is only held while the channel is ready. */
  predicate Gated(e: Emu) {
    e.queue != [] || e.tx.Some? ==> Ready(e)
  }

  /** Nothing the host sent since the last reset is lost, repeated or reordered. */
  predicate Conserved(e: Emu) {
    Offered(e.log) == Played(e.log) + Pending(e)
  }

  predicate SubStates(e: Emu) {
    && (e.iso in {WaitTpdu, InPts} ==> e.tpdu == WaitCla)
    && (e.iso == InTpdu ==> e.tpdu != WaitCla)
    && e.wi >= 1 && e.wt >= 960
    && (e.rx.Some? ==> |e.rx.value| < RX_ROOM)
  }

  /** While it waits for the host, the countdown of the waiting time is in its first half; while the reader sends, it
      stands at its start. */
  predicate Timed(e: Emu) {
    e.iso == InTpdu ==>
      if e.tpdu in {WaitPb, WaitTx} then
        e.timer.total == e.wt && !e.timer.half && e.timer.remaining > e.timer.total / 2
      else e.uart == RxOn && e.timer == Start(e.wt)
  }

  /** Which interrupts of the UART are enabled where nobody waits for the host. */
  predicate Wired(e: Emu) {
    && (Inactive(e) ==> e.uart == Off)
    && (e.iso == WaitAtr ==> e.uart == TimerOnly)
    && (e.iso == InAtr ==> e.uart == TxOn)
    && (e.iso == WaitTpdu ==> e.uart == RxOn)
    && (e.iso == InPts ==> e.uart == if e.pts.resp then TxOn else RxOn)
  }

  ghost predicate Inv(e: Emu) {
    Shaped(e) && Powered(e) && Gated(e) && SubStates(e) && Timed(e) && Wired(e)
  }

  lemma AtLeastOneEtu(wi: nat, d: nat)
    requires wi >= 1
    ensures EmuD(d) >= 1 && WaitingTime(wi, EmuD(d)) >= 960
  {
  }

  /** The waiting time in numbers. */
  lemma WaitingTimeIs(wi: nat, d: nat)
    ensures WaitingTime(wi, EmuD(d)) == wi * 960 * WholeD(d)
  {
    if d < 16 {
      TablesAre(d);
    }
  }

  lemma SearchWiPositive(a: seq<byte>)
    ensures SearchWi(a) >= 1
  {
  }

  lemma WaitTpduKeeps(e: Emu)
    requires Inv(e) && e.iso in {InAtr, InPts, InTpdu}
    ensures Inv(SetIso(e, WaitTpdu))
  {
  }

  lemma PtsCheckKeeps(e: Emu, b: byte)
    requires Inv(e) && e.iso == InPts && !e.pts.resp
    ensures Inv(PtsCheck(e, b))
  {
  }

  lemma PtsByteKeeps(e: Emu, b: byte)
    requires Inv(e) && (e.iso == InPts || (e.iso == WaitTpdu && !e.pts.resp && e.pts.field == PPSS))
    ensures Inv(PtsByte(e, b))
  {
    if !e.pts.resp && e.pts.field == PCK {
      PtsCheckKeeps(e.(pts := e.pts.(reqSlots := e.pts.reqSlots[Slot(PCK) := b])), b);
    }
  }

  lemma AddByteKeeps(e: Emu, b: byte)
    requires Inv(e) && e.iso == InTpdu && e.tpdu == WaitRx
    ensures Inv(AddByte(e, b)) && AddByte(e, b).iso == InTpdu
  {
  }

  lemma LastHeaderByteKeeps(e: Emu, b: byte)
    requires Inv(e) && e.iso == InTpdu && e.tpdu == WaitP3
    ensures var e1 := SendHeader(SetTpdu(e.(hdr := e.hdr[4 := b]), WaitPb)); Inv(e1) && e1.iso == InTpdu
  {
  }

  lemma TpduByteKeeps(e: Emu, b: byte)
    requires Inv(e) && e.iso in {WaitTpdu, InTpdu}
    ensures Inv(TpduByte(e, b))
  {
    if e.iso == WaitTpdu {
      FirstHeaderByteKeeps(e, b);
    } else {
      TakeByteKeeps(e, b);
    }
  }

  lemma TakeByteKeeps(e: Emu, b: byte)
    requires Inv(e) && e.iso == InTpdu
    ensures Inv(TakeByte(e, b)) && TakeByte(e, b).iso == InTpdu
  {
    match e.tpdu
    case WaitRx => AddByteKeeps(e, b);
    case WaitP3 => LastHeaderByteKeeps(e, b);
    case WaitIns => HeaderByteKeeps(e, 1, b, WaitP1);
    case WaitP1 => HeaderByteKeeps(e, 2, b, WaitP2);
    case WaitP2 => HeaderByteKeeps(e, 3, b, WaitP3);
    case _ =>
  }

  lemma HeaderByteKeeps(e: Emu, k: nat, b: byte, next: TpduState)
    requires Inv(e) && e.iso == InTpdu && e.tpdu in {WaitIns, WaitP1, WaitP2}
    requires k < 5 && next in {WaitP1, WaitP2, WaitP3}
    ensures Inv(e.(hdr := e.hdr[k := b], tpdu := next))
  {
  }

  lemma FirstHeaderByteKeeps(e: Emu, b: byte)
    requires Inv(e) && e.iso == WaitTpdu
    ensures Inv(TpduByte(e, b))
  {
    assert TakeByte(e, b) == e.(hdr := e.hdr[0 := b], tpdu := WaitIns, timer := Start(e.wt));
  }

  lemma ReaderKeeps(e: Emu, b: byte)
    requires Inv(e)
    ensures Inv(RxByte(e, b))
  {
    if e.iso == InPts {
      PtsByteKeeps(e, b);
    } else if e.iso == WaitTpdu && b == 0xff {
      PtsByteKeeps(e.(pts := e.pts.(resp := false, field := PPSS)), b);
    } else if e.iso in {WaitTpdu, InTpdu} {
      TpduByteKeeps(e, b);
    }
  }

  lemma TxAtrKeeps(e: Emu)
    requires Inv(e) && e.iso == InAtr
    ensures Inv(TxAtr(e))
  {
    SearchWiPositive(e.atr);
    AtLeastOneEtu(SearchWi(e.atr), e.d);
    var wi := SearchWi(e.atr);
    WaitTpduKeeps(e.(wi := wi, wt := WaitingTime(wi, EmuD(e.d))));
  }

  lemma PtsDoneKeeps(e: Emu)
    requires Inv(e) && e.iso == InPts
    ensures Inv(PtsDone(e))
  {
    AtLeastOneEtu(e.wi, e.d);
  }

  lemma TxPtsKeeps(e: Emu)
    requires Inv(e) && e.iso == InPts
    ensures Inv(TxPts(e))
  {
    if e.pts.resp && e.pts.field == PCK {
      PtsDoneKeeps(Send(e, e.pts.respSlots[Slot(PCK)], FromPts));
    }
  }

  lemma SetTpduKeeps(e: Emu, t: TpduState)
    requires Inv(e) && e.iso == InTpdu && t in {WaitRx, WaitTx}
    ensures Inv(SetTpdu(e, t)) && SetTpdu(e, t).iso == InTpdu
  {
  }

  lemma EndOfMsgKeeps(e: Emu, flags: set<DataFlag>)
    requires Inv(e) && e.iso == InTpdu
    ensures Inv(EndOfMsg(e, flags))
  {
    if PbAndRx in flags {
      SetTpduKeeps(e, WaitRx);
      DoneKeeps(SetTpdu(e, WaitRx));
    } else if Final in flags {
      WaitTpduKeeps(e);
      DoneKeeps(SetIso(e, WaitTpdu));
    } else {
      DoneKeeps(e);
    }
  }

  lemma DoneKeeps(e: Emu)
    requires Inv(e)
    ensures Inv(e.(tx := None))
  {
  }

  lemma AfterTxKeeps(e: Emu, m: TxMsg)
    requires Inv(e) && e.iso == InTpdu
    ensures Inv(AfterTx(e, m))
  {
    SetTpduKeeps(e, WaitTx);
    SetTpduKeeps(e, WaitRx);
    EndOfMsgKeeps(AfterPb(e, m), m.flags);
  }

  lemma TxTpduKeeps(e: Emu)
    requires Inv(e) && e.iso == InTpdu
    ensures Inv(TxTpdu(e))
  {
    if NextMsg(e).Some? {
      var m := NextMsg(e).value;
      var e1 := if e.tx.Some? then e else e.(tx := Some(m), queue := e.queue[1..]);
      AfterTxKeeps(RestartTimer(Send(e1, m.data[0], FromHost)), m.(data := m.data[1..]));
    }
  }

  lemma TxReadyKeeps(e: Emu)
    requires Inv(e)
    ensures Inv(OnTxReady(e))
  {
    TxByteKeeps(e);
  }

  lemma TxByteKeeps(e: Emu)
    requires Inv(e)
    ensures Inv(TxByte(e).0)
  {
    match e.iso
    case InAtr => TxAtrKeeps(e);
    case InPts => TxPtsKeeps(e);
    case InTpdu => TxTpduKeeps(e);
    case _ =>
  }

  lemma TimeoutKeeps(e: Emu)
    requires Inv(e)
    ensures Inv(OnTimeout(e))
  {
    if TimerRuns(e) {
      TickKeeps(e);
    }
  }

  lemma TickKeeps(e: Emu)
    requires Inv(e) && TimerRuns(e)
    ensures Inv(OnTimeout(e))
  {
    var (w, tick) := Timeout(e.timer);
    match tick
    case Quiet =>
    case Half =>
    case Expired => assert e.iso == WaitAtr ==> OnTimeout(e) == SetIso(e.(timer := w), InAtr);
  }

  lemma VccKeeps(e: Emu, active: bool)
    requires Inv(e)
    ensures Inv(OnVcc(e, active))
  {
  }

  lemma ClkKeeps(e: Emu, active: bool)
    requires Inv(e)
    ensures Inv(OnClk(e, active))
  {
  }

  lemma RstKeeps(e: Emu, active: bool)
    requires Inv(e)
    ensures Inv(OnRst(e, active))
  {
  }

  lemma StepKeeps(e: Emu, ev: Event)
    requires Inv(e) && Proper(ev)
    ensures Inv(Step(e, ev))
  {
    match ev
    case Reader(b) => ReaderKeeps(e, b);
    case TxReady => TxReadyKeeps(e);
    case TimerRound => TimeoutKeeps(e);
    case Vcc(active) => VccKeeps(e, active);
    case Clk(active) => ClkKeeps(e, active);
    case Rst(active) => RstKeeps(e, active);
    case HostTx(m) =>
    case SetAtr(atr) =>
  }

  // ---------------------------------------------------------------- the lines

  /** The card is activated: power, clock, no reset. */
  predicate Active(e: Emu) {
    e.vcc && e.clocked && !e.inReset
  }

  predicate LineEvent(ev: Event) {
    ev.Vcc? || ev.Clk? || ev.Rst?
  }

  /** Power is lost, or the reset line asserted. */
  predicate Loses(e: Emu, ev: Event) {
    (ev == Vcc(false) && e.vcc) || (ev == Rst(true) && !e.inReset)
  }

  /** What an inactive card waits for next: the clock once it has power, the reset line once it has the clock too. */
  function Awaits(e: Emu, ev: Event): CardState {
    if ev == Vcc(true) && !e.vcc then WaitClk
    else if ev == Clk(true) && !e.clocked && e.iso == WaitClk then WaitRst
    else e.iso
  }

  /** What an event on a line means, whatever the order of activation.  A loss makes the card inactive, silent, and
      empty of data.  Otherwise an inactive card starts to prepare its ATR, at the default rates, exactly when the lines
      are all right; and nothing but the line itself changes for one that is active, not even when the clock stops. */
  predicate LineMeans(e: Emu, ev: Event, e1: Emu)
    requires LineEvent(ev)
  {
    && e1.vcc == (if ev.Vcc? then ev.active else e.vcc)
    && e1.clocked == (if ev.Clk? then ev.active else e.clocked)
    && e1.inReset == (if ev.Rst? then ev.active else e.inReset)
    && e1.atr == e.atr && e1.toHost == e.toHost
    && (Loses(e, ev) ==> Inactive(e1) && Pending(e1) == [] && e1.rx.None? && e1.uart == Off && e1.timer == Start(0))
    && (Loses(e, ev) ==> e1.iso == if ev.Vcc? then WaitPower else WaitRst)
    && (!Loses(e, ev) && Inactive(e) ==> e1.iso == if Active(e1) then WaitAtr else Awaits(e, ev))
    && (Inactive(e) && e1.iso == WaitAtr ==>
          e1.f == 1 && e1.d == 1 && e1.wi == 10 && e1.wt == 9600 && e1.fidi == 372 && e1.timer == Start(2))
    && (!Loses(e, ev) && !Inactive(e) ==> e1 == e.(vcc := e1.vcc, clocked := e1.clocked, inReset := e1.inReset))
  }

  lemma LinesDecide(e: Emu, ev: Event)
    requires Inv(e) && LineEvent(ev)
    ensures LineMeans(e, ev, Step(e, ev))
  {
    match ev
    case Vcc(active) => VccMeans(e, active);
    case Clk(active) => ClkMeans(e, active);
    case Rst(active) => RstMeans(e, active);
    case _ =>
  }

  lemma VccMeans(e: Emu, active: bool)
    requires Inv(e)
    ensures LineMeans(e, Vcc(active), OnVcc(e, active))
  {
    if active {
      PowerMeans(e);
    } else {
      LossMeans(e);
    }
  }

  lemma PowerMeans(e: Emu)
    requires Inv(e)
    ensures LineMeans(e, Vcc(true), OnVcc(e, true))
  {
  }

  lemma LossMeans(e: Emu)
    requires Inv(e)
    ensures LineMeans(e, Vcc(false), OnVcc(e, false))
  {
  }

  lemma ClkMeans(e: Emu, active: bool)
    requires Inv(e)
    ensures LineMeans(e, Clk(active), OnClk(e, active))
  {
    if active {
      ClockMeans(e);
    } else {
      StopMeans(e);
    }
  }

  lemma ClockMeans(e: Emu)
    requires Inv(e)
    ensures LineMeans(e, Clk(true), OnClk(e, true))
  {
  }

  lemma StopMeans(e: Emu)
    requires Inv(e)
    ensures LineMeans(e, Clk(false), OnClk(e, false))
  {
  }

  lemma RstMeans(e: Emu, active: bool)
    requires Inv(e)
    ensures LineMeans(e, Rst(active), OnRst(e, active))
  {
    if active {
      AssertMeans(e);
    } else {
      ReleaseMeans(e);
    }
  }

  lemma AssertMeans(e: Emu)
    requires Inv(e)
    ensures LineMeans(e, Rst(true), OnRst(e, true))
  {
  }

  lemma ReleaseMeans(e: Emu)
    requires Inv(e)
    ensures LineMeans(e, Rst(false), OnRst(e, false))
  {
  }

  // ---------------------------------------------------------------- what a step does to the wire and the queue

  /** The state in which the card sends the bytes of a source. */
  function Talking(source: Source): CardState {
    match source
    case FromAtr => InAtr
    case FromPts => InPts
    case _ => InTpdu
  }

  /** At most one entry is added to the log.  A byte goes to the UART only from a card with power and out of reset, in
      the state of its source; a byte of the host is the first that was pending. */
  predicate Talks(e: Emu, e1: Emu) {
    if e1.log == e.log then Pending(e1) == Pending(e)
    else
      && |e1.log| > 0 && e1.log[..|e1.log| - 1] == e.log
      && var x := e1.log[|e1.log| - 1];
      if x.Cleared? then Pending(e1) == []
      else if x.Accepted? then Ready(e) && Pending(e1) == Pending(e) + x.data
      else
        && e.vcc && !e.inReset && e.iso == Talking(x.source)
        && Pending(e) == (if x.source == FromHost then [x.b] else []) + Pending(e1)
  }

  /** Neither the wire nor the queue changes. */
  predicate SameTalk(e: Emu, e1: Emu) {
    e1.log == e.log && e1.tx == e.tx && e1.queue == e.queue
  }

  lemma StatesAreSilent(e: Emu, iso: CardState, t: TpduState)
    ensures SameTalk(e, SetTpdu(e, t)) && SameTalk(e, SetIso(e, iso))
  {
    SetTpduIsSilent(e, t);
    if iso == WaitTpdu {
      SetTpduIsSilent(e.(iso := iso), WaitCla);
    }
  }

  lemma SetTpduIsSilent(e: Emu, t: TpduState)
    ensures SameTalk(e, SetTpdu(e, t))
  {
  }

  lemma HeaderTalks(e: Emu)
    ensures SameTalk(e, FlushRx(e, {Final})) && SameTalk(e, FlushRx(e, {})) && SameTalk(e, SendHeader(e))
  {
  }

  lemma TakeByteTalks(e: Emu, b: byte)
    requires Inv(e)
    ensures SameTalk(e, TakeByte(e, b))
  {
    match e.tpdu
    case WaitP3 =>
      var e1 := e.(hdr := e.hdr[4 := b]);
      StatesAreSilent(e1, InTpdu, WaitPb);
      HeaderTalks(SetTpdu(e1, WaitPb));
    case WaitRx => AddByteTalks(e, b);
    case _ =>
  }

  lemma AddByteTalks(e: Emu, b: byte)
    requires Shaped(e)
    ensures SameTalk(e, AddByte(e, b))
  {
    var e1 := e.(rx := Some((if e.rx.Some? then e.rx.value else []) + [b]));
    HeaderTalks(e1);
    StatesAreSilent(FlushRx(e1, {Final}), InTpdu, WaitTx);
  }

  lemma TpduByteTalks(e: Emu, b: byte)
    requires Inv(e)
    ensures SameTalk(e, TpduByte(e, b))
  {
    TakeByteTalks(e, b);
    StatesAreSilent(TakeByte(e, b), InTpdu, WaitRx);
  }

  lemma PtsByteTalks(e: Emu, b: byte)
    requires Inv(e)
    ensures SameTalk(e, PtsByte(e, b))
  {
    if !e.pts.resp && e.pts.field == PCK {
      PtsCheckTalks(e.(pts := e.pts.(reqSlots := e.pts.reqSlots[Slot(PCK) := b])), b);
    }
  }

  lemma PtsCheckTalks(e: Emu, b: byte)
    requires Inv(e)
    ensures SameTalk(e, PtsCheck(e, b))
  {
    StatesAreSilent(e.(pts := e.pts.(field := PPSS)), WaitTpdu, WaitCla);
  }

  lemma ReaderTalks(e: Emu, b: byte)
    requires Inv(e)
    ensures SameTalk(e, RxByte(e, b))
  {
    PtsByteTalks(e, b);
    if e.iso == WaitTpdu {
      PtsByteTalks(e.(pts := e.pts.(resp := false, field := PPSS)), b);
    }
    TpduByteTalks(e, b);
  }

  lemma SentTalks(e: Emu, e1: Emu, b: byte, source: Source)
    requires Powered(e) && e.iso == Talking(source) && e1.log == e.log + [Sent(b, source)]
    requires Pending(e) == (if source == FromHost then [b] else []) + Pending(e1)
    ensures Talks(e, e1)
  {
  }

  lemma AfterTxTalks(e: Emu, m: TxMsg)
    ensures var e1 := AfterTx(e, m);
      e1.log == e.log && e1.queue == e.queue && e1.tx == if m.data != [] then Some(m) else None
  {
    var e1 := AfterPb(e, m);
    assert SameTalk(e, e1);
    StatesAreSilent(e1, WaitTpdu, WaitRx);
  }

  lemma FirstByte(data: seq<byte>, more: seq<byte>)
    requires |data| > 0
    ensures [data[0]] + (data[1..] + more) == data + more
  {
  }

  lemma TxTpduTalks(e: Emu)
    requires Inv(e) && e.iso == InTpdu
    ensures Talks(e, TxTpdu(e))
  {
    if NextMsg(e).Some? {
      var m, e1 := NextMsg(e).value, TxTpdu(e);
      var b, rest := m.data[0], m.data[1..];
      var queue := if e.tx.Some? then e.queue else e.queue[1..];
      AfterTxTalks(RestartTimer(Send(e.(tx := Some(m), queue := queue), b, FromHost)), m.(data := rest));
      FirstByte(m.data, Flat(queue));
      assert Pending(e) == m.data + Flat(queue);
      assert Pending(e1) == rest + Flat(queue);
      SentTalks(e, e1, b, FromHost);
    }
  }

  lemma TxAtrTalks(e: Emu)
    requires Inv(e) && e.iso == InAtr
    ensures Talks(e, TxAtr(e))
  {
    if e.idx < |e.atr| {
      SentTalks(e, TxAtr(e), e.atr[e.idx], FromAtr);
    } else {
      var wi := SearchWi(e.atr);
      StatesAreSilent(e.(wi := wi, wt := WaitingTime(wi, EmuD(e.d))), WaitTpdu, WaitRx);
    }
  }

  lemma TxPtsTalks(e: Emu)
    requires Inv(e) && e.iso == InPts
    ensures Talks(e, TxPts(e))
  {
    if e.pts.resp {
      var b := e.pts.respSlots[Slot(e.pts.field)];
      var e1 := TxPts(e);
      assert e1.log == e.log + [Sent(b, FromPts)] && e1.tx == e.tx && e1.queue == e.queue;
      SentTalks(e, e1, b, FromPts);
    }
  }

  lemma TxReadyTalks(e: Emu)
    requires Inv(e)
    ensures Talks(e, OnTxReady(e))
  {
    match e.iso {
      case InAtr => TxAtrTalks(e);
      case InPts => TxPtsTalks(e);
      case InTpdu => TxTpduTalks(e);
      case _ =>
    }
    OnTxReadyIs(e);
  }

  lemma OnTxReadyIs(e: Emu)
    requires Shaped(e)
    ensures e.uart != TxOn ==> OnTxReady(e) == e
    ensures e.uart == TxOn ==> SameTalk(TxByte(e).0, OnTxReady(e))
  {
  }

  lemma TimeoutTalks(e: Emu)
    requires Inv(e)
    ensures Talks(e, OnTimeout(e))
  {
    var e1 := OnTimeout(e);
    if e1.log != e.log {
      SentTalks(e, e1, 0x60, NullByte);
    }
  }

  /** A line changes nothing, or the card is reset. */
  predicate Resets(e: Emu, e1: Emu) {
    e1.log == e.log + [Cleared] && e1.tx.None? && e1.queue == []
  }

  lemma VccTalks(e: Emu, active: bool)
    ensures Talks(e, OnVcc(e, active))
  {
    assert SameTalk(e, OnVcc(e, active)) || Resets(e, OnVcc(e, active));
  }

  lemma ClkTalks(e: Emu, active: bool)
    ensures Talks(e, OnClk(e, active))
  {
    assert SameTalk(e, OnClk(e, active));
  }

  lemma RstTalks(e: Emu, active: bool)
    ensures Talks(e, OnRst(e, active))
  {
    assert SameTalk(e, OnRst(e, active)) || Resets(e, OnRst(e, active));
  }

  lemma HostTalks(e: Emu, m: TxMsg)
    requires Inv(e)
    ensures Talks(e, OnHostTx(e, m))
  {
    if Ready(e) {
      AcceptedTalks(e, OnHostTx(e, m), m);
    }
  }

  lemma AcceptedTalks(e: Emu, e1: Emu, m: TxMsg)
    requires Ready(e) && e1.tx == e.tx && e1.queue == e.queue + [m] && e1.log == e.log + [Accepted(m.data)]
    ensures Talks(e, e1)
  {
    FlatAppend(e.queue, m);
    var now := if e.tx.Some? then e.tx.value.data else [];
    assert now + (Flat(e.queue) + m.data) == (now + Flat(e.queue)) + m.data;
  }

  lemma StepTalks(e: Emu, ev: Event)
    requires Inv(e) && Proper(ev)
    ensures Talks(e, Step(e, ev))
  {
    match ev
    case Reader(b) => ReaderTalks(e, b);
    case TxReady => TxReadyTalks(e);
    case TimerRound => TimeoutTalks(e);
    case Vcc(active) => VccTalks(e, active);
    case Clk(active) => ClkTalks(e, active);
    case Rst(active) => RstTalks(e, active);
    case HostTx(m) => HostTalks(e, m);
    case SetAtr(atr) =>
  }

  lemma TalksConserves(e: Emu, e1: Emu)
    requires Conserved(e) && Talks(e, e1)
    ensures Conserved(e1)
  {
    if e1.log != e.log {
      var x := e1.log[|e1.log| - 1];
      assert e1.log == e.log + [x];
      LogGrows(e.log, x);
      Regrouped(Played(e.log), Pending(e), if x.Accepted? then x.data else []);
      Regrouped(Played(e.log), if x.Sent? && x.source == FromHost then [x.b] else [], Pending(e1));
    }
  }

  lemma Regrouped(a: seq<byte>, b: seq<byte>, c: seq<byte>)
    ensures a + (b + c) == (a + b) + c && a + [] == a && [] + c == c
  {
  }

  // ---------------------------------------------------------------- runs

  function Run(e: Emu, evs: seq<Event>): Emu
    requires Inv(e) && AllProper(evs)
    ensures Inv(Run(e, evs))
    decreases |evs|
  {
    if evs == [] then e
    else
      StepKeeps(e, evs[0]);
      Run(Step(e, evs[0]), evs[1..])
  }

  /** From power-up on, whatever the reader, the lines and the host do: a card that talks has power and is out of
      reset; data is held only while the channel is ready; and what was transmitted since the last reset is a prefix
      of what was accepted since the last reset, so that nothing queued before a reset is sent after it. */
  lemma {:induction false} EveryRun(e: Emu, evs: seq<Event>)
    requires Inv(e) && Conserved(e) && AllProper(evs)
    ensures var r := Run(e, evs); Powered(r) && Gated(r) && Conserved(r) && Played(r.log) <= Offered(r.log)
    decreases |evs|
  {
    if evs != [] {
      StepKeeps(e, evs[0]);
      StepTalks(e, evs[0]);
      TalksConserves(e, Step(e, evs[0]));
      EveryRun(Step(e, evs[0]), evs[1..]);
    }
  }

  lemma InitHolds(vcc: bool, inReset: bool, clocked: bool)
    ensures Inv(Init(vcc, inReset, clocked)) && Conserved(Init(vcc, inReset, clocked))
    ensures var e := Init(vcc, inReset, clocked);
      && e.iso == WaitPower && e.f == 1 && e.d == 1 && e.wi == 10 && e.wt == 9600 && e.fidi == 372 && e.uart == Off
      && e.toHost == [] && Pending(e) == []
    ensures Init(vcc, inReset, clocked).atr == [0x3b, 0x80, 0x80, 0x81, 0x1f, 0xc7, 0x59]
  {
  }

  /** In every run, while the card waits for the host a round of the counter never ends the waiting time. */
  lemma WaitingNeverExpires(e: Emu, evs: seq<Event>)
    requires Inv(e) && AllProper(evs)
    ensures var r := Run(e, evs);
      r.iso == InTpdu && r.tpdu in {WaitPb, WaitTx} ==>
        && r.timer.remaining > 0 && Timeout(r.timer).1 != Expired
        && (TimerRuns(r) ==> Timed(OnTimeout(r)))
  {
    StepKeeps(Run(e, evs), TimerRound);
  }

  // ---------------------------------------------------------------- runs without the reader

  /** Everything that was ever handed to the UART. */
  function Wire(log: seq<Entry>): seq<byte> {
    if log == [] then []
    else
      var last := log[|log| - 1];
      Wire(log[..|log| - 1]) + if last.Sent? then [last.b] else []
  }

  lemma WireGrows(log: seq<Entry>, x: Entry)
    ensures Wire(log + [x]) == if x.Sent? then Wire(log) + [x.b] else Wire(log)
  {
    assert (log + [x])[..|log|] == log;
  }

  /** What goes on while the card has the word: its transmitter, its timer, the host. */
  predicate Calm(ev: Event) {
    Proper(ev) && (ev.TxReady? || ev.TimerRound? || ev.HostTx?)
  }

  predicate AllCalm(evs: seq<Event>): (r: bool)
    ensures r ==> AllProper(evs)
  {
    evs != [] ==> Calm(evs[0]) && AllCalm(evs[1..])
  }

  /** How often the transmitter gets ready. */
  function Count(evs: seq<Event>): nat {
    if evs == [] then 0 else (if evs[0].TxReady? then 1 else 0) + Count(evs[1..])
  }

  /** The bytes of the reader. */
  function Readers(evs: seq<Event>): seq<byte> {
    if evs == [] then [] else (if evs[0].Reader? then [evs[0].b] else []) + Readers(evs[1..])
  }

  /** While the card sends its ATR or a PTS response, or expects a TPDU, the timer only counts. */
  lemma TimerOnlyCounts(e: Emu)
    requires Inv(e) && e.iso in {InAtr, InPts, WaitTpdu}
    ensures OnTimeout(e) == e.(timer := OnTimeout(e).timer)
  {
  }

  /** Data of the host is only queued then, or dropped. */
  lemma HostOnlyQueues(e: Emu, m: TxMsg)
    requires Inv(e) && e.iso in {WaitAtr, InAtr, InPts, WaitTpdu}
    ensures var e1 := OnHostTx(e, m);
      e1 == e.(queue := e1.queue, log := e1.log) && Wire(e1.log) == Wire(e.log)
  {
    WireGrows(e.log, Accepted(m.data));
  }
}
