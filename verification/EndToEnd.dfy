/** One T=0 command through everything: reader, emulator, host and card on one side, the sniffer on the wire between
    reader and emulator.  The parts act in any order. */
module EndToEnd {
  import opened Iso7816
  import W = WaitTime
  import E = EmuSpec
  import R = EmuRuns
  import S = SniffSpec
  import T = SniffTpdu
  import H = HostSpec

  /** `kind` is what the profile says of the header; `answer` is what the card in the host's reader answers;
      `data` is what the reader sends after an acknowledgement. */
  datatype Cmd = Cmd(hdr: seq<byte>, kind: nat, data: seq<byte>, answer: H.Answer)

  /** `sent`: bytes the reader has sent; `told`: messages of the emulator that the host has handled; `asked`: command
      APDUs handed to the card in the host's reader; `out`: messages of the host on their way to the emulator. */
  datatype Sys = Sys(e: E.Emu, s: S.Sniff, sent: nat, told: nat, ac: H.Apdu, asked: seq<seq<byte>>, out: seq<E.TxMsg>)

  datatype Event = ReaderByte | TxReady | TimerRound | HostReads | Delivery

  // ---------------------------------------------------------------- the command

  /** CLA, INS and SW1 are valid, the answer of the card is empty or as long as P3 says, and the reader has the bytes
      P3 announces. */
  predicate Valid(cmd: Cmd, last: H.Apdu) {
    && H.Sound(last) && |cmd.hdr| == 5 && cmd.hdr[0] != 0xff && !StatusByte(cmd.hdr[1])
    && |cmd.answer.sw| == 2 && StatusByte(cmd.answer.sw[0]) && cmd.answer.sw[0] != 0x60
    && var k := H.KindOf(last, cmd.hdr, cmd.kind);
    && 1 <= k <= 4
    && (k <= 2 ==> cmd.data == [] && (cmd.answer.data == [] || |cmd.answer.data| == DataBytes(cmd.hdr[4])))
    && (k >= 3 ==> |cmd.data| == cmd.hdr[4] as int && cmd.answer.data == [])
  }

  /** The data that crosses the interface, in whichever direction. */
  function DataOf(cmd: Cmd): seq<byte> {
    if cmd.data != [] then cmd.data else cmd.answer.data
  }

  function PacketOf(cmd: Cmd): seq<byte> {
    cmd.hdr + DataOf(cmd) + cmd.answer.sw
  }

  // ---------------------------------------------------------------- steps

  /** What the emulator just put on the wire reaches the sniffer. */
  function Overhear(s: S.Sniff, before: seq<E.Entry>, after: seq<E.Entry>): S.Sniff {
    if after != before && after != [] && after[|after| - 1].Sent? then S.OnByte(s, after[|after| - 1].b) else s
  }

  function WithEmu(y: Sys, e: E.Emu): Sys {
    y.(e := e, s := Overhear(y.s, y.e.log, e.log))
  }

  /** The reader sends the header, and after an acknowledgement its data. */
  predicate ReaderMay(y: Sys, cmd: Cmd) {
    |cmd.hdr| == 5 && (y.sent < 5 || (y.e.tpdu == E.WaitRx && y.sent < 5 + |cmd.data|))
  }

  function Step(y: Sys, cmd: Cmd, ev: Event): Sys
    requires R.Inv(y.e)
  {
    match ev
    case ReaderByte =>
      if !ReaderMay(y, cmd) then y
      else
        var b := (cmd.hdr + cmd.data)[y.sent];
        y.(e := E.RxByte(y.e, b), s := S.OnByte(y.s, b), sent := y.sent + 1)
    case TxReady => WithEmu(y, E.OnTxReady(y.e))
    case TimerRound => WithEmu(y, E.OnTimeout(y.e))
    case HostReads =>
      if !HostMay(y, cmd) then y
      else
        var m := y.e.toHost[y.told];
        var r := H.OnRxData(y.ac, m, cmd.kind, E.Some(cmd.answer));
        if r.None? then y
        else
          y.(ac := r.value.0, out := y.out + r.value.1, told := y.told + 1,
             asked := y.asked + H.Asked(y.ac, m, cmd.kind))
    case Delivery =>
      if y.out == [] || y.out[0].data == [] then y else y.(e := E.OnHostTx(y.e, y.out[0]), out := y.out[1..])
  }

  /** There is a message the host can handle. */
  predicate HostMay(y: Sys, cmd: Cmd) {
    && y.told < |y.e.toHost| && y.e.toHost[y.told].RxData? && H.Wf(y.ac) && |cmd.answer.sw| == 2
    && var m := y.e.toHost[y.told];
    if E.TpduHdr in m.flags then 5 <= |m.data| else H.Fits(y.ac, m.data)
  }

  lemma StepKeeps(y: Sys, cmd: Cmd, ev: Event)
    requires R.Inv(y.e)
    ensures R.Inv(Step(y, cmd, ev).e)
  {
    match ev
    case ReaderByte => if ReaderMay(y, cmd) { R.ReaderKeeps(y.e, (cmd.hdr + cmd.data)[y.sent]); }
    case TxReady => R.TxReadyKeeps(y.e);
    case TimerRound => R.TimeoutKeeps(y.e);
    case HostReads =>
    case Delivery => if y.out != [] && y.out[0].data != [] { R.StepKeeps(y.e, E.HostTx(y.out[0])); }
  }

  function Run(y: Sys, cmd: Cmd, evs: seq<Event>): Sys
    requires R.Inv(y.e)
    ensures R.Inv(Run(y, cmd, evs).e)
    decreases |evs|
  {
    if evs == [] then y
    else
      StepKeeps(y, cmd, evs[0]);
      Run(Step(y, cmd, evs[0]), cmd, evs[1..])
  }

  // ---------------------------------------------------------------- phases

  /** How far the command is.  Header(k): k bytes of the header are out.  Ack: the procedure byte for data is to come.
      Answering(j), Receiving(j): j data bytes are out.  Status: the status word is to come.  HalfStatus: SW1 is out. */
  datatype Phase = Header(k: nat) | Ack | Answering(j: nat) | Receiving(j: nat) | Status | HalfStatus | Done

  /** What the host will hold and send once it has handled the last message of the emulator. */
  function Settled(y: Sys, cmd: Cmd): (r: (H.Apdu, seq<E.TxMsg>))
    requires HostUpToDate(y, cmd)
  {
    if y.told == |y.e.toHost| then (y.ac, [])
    else H.OnRxData(y.ac, y.e.toHost[y.told], cmd.kind, E.Some(cmd.answer)).value
  }

  predicate HostUpToDate(y: Sys, cmd: Cmd) {
    && H.Sound(y.ac) && |cmd.answer.sw| == 2
    && (y.told == |y.e.toHost|
        || (y.told == |y.e.toHost| - 1 && HostMay(y, cmd)
            && (E.TpduHdr in y.e.toHost[y.told].flags ==> |y.e.toHost[y.told].data| == 5)
            && H.OnRxData(y.ac, y.e.toHost[y.told], cmd.kind, E.Some(cmd.answer)).Some?))
  }

  /** The messages of the host that are not fully transmitted, wherever they are. */
  function Ahead(y: Sys, cmd: Cmd): seq<E.TxMsg>
    requires HostUpToDate(y, cmd)
  {
    (if y.e.tx.Some? then [y.e.tx.value] else []) + y.e.queue + y.out + Settled(y, cmd).1
  }

  function InTpdu(s0: S.Sniff, state: S.TpduField, got: seq<byte>): S.Sniff {
    s0.(iso := S.InTpdu, tpdu := S.Tpdu(state, got))
  }

  /** The sniffer in a phase. */
  function SniffAt(s0: S.Sniff, cmd: Cmd, p: Phase): S.Sniff
    requires |cmd.hdr| == 5 && |cmd.answer.sw| == 2
  {
    var h := cmd.hdr;
    match p
    case Header(k) =>
      if k == 0 then s0
      else
        InTpdu(s0, if k == 1 then S.INS else if k == 2 then S.P1 else if k == 3 then S.P2 else S.P3,
               h[..if k < 5 then k else 5])
    case Ack => InTpdu(s0, S.Procedure, h)
    case Answering(j) => InTpdu(s0, S.DataRemaining, h + DataOf(cmd)[..if j < |DataOf(cmd)| then j else 0])
    case Receiving(j) => InTpdu(s0, S.DataRemaining, h + DataOf(cmd)[..if j < |DataOf(cmd)| then j else 0])
    case Status => InTpdu(s0, S.Procedure, h + DataOf(cmd))
    case HalfStatus => InTpdu(s0, S.SW2, h + DataOf(cmd) + [cmd.answer.sw[0]])
    case Done => S.Say(s0, S.TpduReport(PacketOf(cmd), {}))
  }

  /** What is still to be transmitted in a phase. */
  function AheadAt(cmd: Cmd, p: Phase): seq<E.TxMsg>
    requires |cmd.hdr| == 5 && |cmd.answer.sw| == 2
  {
    var status := H.SwMsg(cmd.answer.sw);
    match p
    case Ack => if cmd.data != [] then [H.PbRxMsg(cmd.hdr[1])] else [H.PbTxMsg(cmd.hdr[1], DataOf(cmd)), status]
    case Answering(j) => [E.TxMsg(DataOf(cmd)[if j < |DataOf(cmd)| then j else 0..], {E.PbAndTx}), status]
    case Status => [status]
    case HalfStatus => [E.TxMsg([cmd.answer.sw[1]], {E.PbAndTx, E.Final})]
    case _ => []
  }

  predicate PhaseOk(cmd: Cmd, p: Phase) {
    match p
    case Header(k) => k < 5
    case Ack => DataOf(cmd) != []
    case Answering(j) => cmd.data == [] && j < |DataOf(cmd)|
    case Receiving(j) => cmd.data != [] && j < |cmd.data|
    case _ => true
  }

  /** The emulator's sub-state in a phase. */
  predicate EmuAt(e: E.Emu, cmd: Cmd, p: Phase)
    requires |cmd.hdr| == 5
  {
    match p
    case Header(k) =>
      && (k > 0 ==> e.uart == E.RxOn) && e.rx.None? && |e.hdr| == 5 && k < 5 && e.hdr[..k] == cmd.hdr[..k]
      && (if k == 0 then e.iso == E.WaitTpdu
          else
            && e.iso == E.InTpdu
            && (e.tpdu ==
                if k == 1 then E.WaitIns else if k == 2 then E.WaitP1 else if k == 3 then E.WaitP2 else E.WaitP3))
    case Receiving(j) =>
      && e.iso == E.InTpdu && e.tpdu == E.WaitRx && e.uart == E.RxOn && e.hdr == cmd.hdr && j < |cmd.data|
      && e.rx == if j == 0 then E.None else E.Some(cmd.data[..j])
    case Done => e.iso == E.WaitTpdu && e.rx.None?
    case Ack => e.iso == E.InTpdu && e.tpdu == E.WaitPb && e.hdr == cmd.hdr && e.rx.None?
    case Status => e.iso == E.InTpdu && e.tpdu in {E.WaitPb, E.WaitTx} && e.rx.None?
    case _ => e.iso == E.InTpdu && e.tpdu == E.WaitTx && e.rx.None?
  }

  /** Bytes the reader has sent. */
  function SentAt(cmd: Cmd, p: Phase): nat {
    match p
    case Header(k) => k
    case Ack => 5
    case Receiving(j) => 5 + j
    case _ => 5 + |cmd.data|
  }

  /** The APDU context of the host after the command. */
  function Finished(last: H.Apdu, cmd: Cmd): H.Apdu
    requires Valid(cmd, last)
  {
    H.Apdu(cmd.hdr, cmd.data, |cmd.data|, cmd.answer.sw, H.KindOf(last, cmd.hdr, cmd.kind))
  }

  /** The APDU context of the host in a phase, once it has handled everything. */
  function ApduAt(last: H.Apdu, cmd: Cmd, p: Phase): H.Apdu
    requires Valid(cmd, last)
  {
    if p.Header? then last
    else if p.Receiving? || (p == Ack && cmd.data != []) then
      H.Apdu(cmd.hdr, [], |cmd.data|, [0, 0], H.KindOf(last, cmd.hdr, cmd.kind))
    else Finished(last, cmd)
  }

  /** A message is in flight exactly when it is partly transmitted, and the transmitter is on whenever there is one. */
  predicate Flight(e: E.Emu, p: Phase) {
    && (e.tx.Some? <==> p.Answering? || p.HalfStatus?)
    && (e.tx.Some? || e.queue != [] ==> e.uart == E.TxOn)
  }

  /** The sniffer waits for a command. */
  predicate SniffReady(s0: S.Sniff) {
    s0.iso == S.WaitTpdu && s0.tpdu == S.Tpdu(S.CLA, []) && !s0.atr.convert
  }

  ghost predicate At(y: Sys, s0: S.Sniff, last: H.Apdu, cmd: Cmd, p: Phase) {
    && R.Inv(y.e) && Valid(cmd, last) && SniffReady(s0) && PhaseOk(cmd, p) && HostUpToDate(y, cmd)
    && EmuAt(y.e, cmd, p) && Flight(y.e, p)
    && y.s == SniffAt(s0, cmd, p) && y.sent == SentAt(cmd, p)
    && Ahead(y, cmd) == AheadAt(cmd, p) && Settled(y, cmd).0 == ApduAt(last, cmd, p)
  }

  // ---------------------------------------------------------------- steps of the host

  lemma HostReadsKeeps(y: Sys, s0: S.Sniff, last: H.Apdu, cmd: Cmd, p: Phase)
    requires At(y, s0, last, cmd, p)
    ensures At(Step(y, cmd, HostReads), s0, last, cmd, p)
  {
    if y.told < |y.e.toHost| {
      AheadRead(y, cmd);
      OnlyHost(y, Step(y, cmd, HostReads), s0, last, cmd, p);
    }
  }

  /** The other parts are where they were. */
  lemma OnlyHost(y: Sys, y1: Sys, s0: S.Sniff, last: H.Apdu, cmd: Cmd, p: Phase)
    requires At(y, s0, last, cmd, p) && y1.e == y.e && y1.s == y.s && y1.sent == y.sent && HostUpToDate(y1, cmd)
    requires Ahead(y1, cmd) == Ahead(y, cmd) && Settled(y1, cmd).0 == Settled(y, cmd).0
    ensures At(y1, s0, last, cmd, p)
  {
  }

  lemma AheadRead(y: Sys, cmd: Cmd)
    requires R.Inv(y.e) && HostUpToDate(y, cmd) && y.told < |y.e.toHost| && H.Sound(Settled(y, cmd).0)
    ensures var y1, r := Step(y, cmd, HostReads), Settled(y, cmd);
      && y1 == y.(ac := r.0, out := y.out + r.1, told := |y.e.toHost|, asked := y1.asked)
      && HostUpToDate(y1, cmd) && Settled(y1, cmd) == (r.0, []) && Ahead(y1, cmd) == Ahead(y, cmd)
  {
    var y1, r := Step(y, cmd, HostReads), Settled(y, cmd);
    assert y1 == y.(ac := r.0, out := y.out + r.1, told := y.told + 1, asked := y1.asked);
    OutGrows((if y.e.tx.Some? then [y.e.tx.value] else []) + y.e.queue, y.out, r.1);
  }

  lemma OutGrows(before: seq<E.TxMsg>, out: seq<E.TxMsg>, more: seq<E.TxMsg>)
    ensures before + (out + more) + [] == before + out + more
  {
  }

  lemma DeliveryKeeps(y: Sys, s0: S.Sniff, last: H.Apdu, cmd: Cmd, p: Phase)
    requires At(y, s0, last, cmd, p)
    ensures At(Step(y, cmd, Delivery), s0, last, cmd, p)
  {
    var y1 := Step(y, cmd, Delivery);
    if y.out != [] && y.out[0].data != [] {
      StepKeeps(y, cmd, Delivery);
      assert y.out[0] in Ahead(y, cmd);
      assert E.Ready(y.e);
      AheadMoves(y, cmd, y1);
    }
  }

  lemma AheadMoves(y: Sys, cmd: Cmd, y1: Sys)
    requires HostUpToDate(y, cmd) && y.out != [] && y1 == y.(e := y1.e, out := y.out[1..])
    requires y1.e.toHost == y.e.toHost && y1.e.tx == y.e.tx && y1.e.queue == y.e.queue + [y.out[0]]
    ensures HostUpToDate(y1, cmd) && Settled(y1, cmd) == Settled(y, cmd) && Ahead(y1, cmd) == Ahead(y, cmd)
  {
    assert y.e.queue + y.out == (y.e.queue + [y.out[0]]) + y.out[1..];
  }

  // ---------------------------------------------------------------- steps of the timer

  /** The round of the counter tells that half of the waiting time is over. */
  predicate TellsHalf(e: E.Emu)
    requires R.Inv(e)
  {
    E.TimerRuns(e) && W.Timeout(e.timer).1 == W.Half
  }

  /** Half time is reached while a message is in flight. */
  predicate Disturbs(y: Sys)
    requires R.Inv(y.e)
  {
    y.e.tx.Some? && TellsHalf(y.e)
  }

  lemma NullIgnored(s0: S.Sniff, cmd: Cmd, last: H.Apdu, p: Phase)
    requires SniffReady(s0) && Valid(cmd, last) && p in {Ack, Status}
    ensures S.OnByte(SniffAt(s0, cmd, p), 0x60) == SniffAt(s0, cmd, p)
  {
  }

  /** A round while the emulator waits for the host, or transmits. */
  lemma RoundIs(e: E.Emu)
    requires R.Inv(e) && e.iso == E.InTpdu && e.tpdu in {E.WaitPb, E.WaitTx}
    ensures var e1 := E.OnTimeout(e);
      && e1 == e.(timer := e1.timer, log := e1.log)
      && e1.log == e.log + if TellsHalf(e) then [E.Sent(0x60, E.NullByte)] else []
  {
  }

  /** Elsewhere the timer interrupt is off. */
  lemma RoundIsOff(y: Sys, s0: S.Sniff, last: H.Apdu, cmd: Cmd, p: Phase)
    requires At(y, s0, last, cmd, p) && (p.Header? || p.Receiving? || p.Done?)
    ensures Step(y, cmd, TimerRound) == y && !TellsHalf(y.e)
  {
  }

  lemma TimerKeeps(y: Sys, s0: S.Sniff, last: H.Apdu, cmd: Cmd, p: Phase)
    requires At(y, s0, last, cmd, p) && !Disturbs(y)
    ensures At(Step(y, cmd, TimerRound), s0, last, cmd, p)
  {
    var y1 := Step(y, cmd, TimerRound);
    R.TimeoutKeeps(y.e);
    if p.Header? || p.Receiving? || p.Done? {
      RoundIsOff(y, s0, last, cmd, p);
    } else {
      RoundIs(y.e);
      if p in {Ack, Status} {
        NullIgnored(s0, cmd, last, p);
      }
      assert y1.s == y.s;
      assert Ahead(y1, cmd) == Ahead(y, cmd);
    }
  }

  /** What a NULL byte does to the sniffer in the middle of a message: it is taken for data, or for SW2. */
  lemma NullInFlight(s0: S.Sniff, cmd: Cmd, last: H.Apdu, p: Phase)
    requires SniffReady(s0) && Valid(cmd, last) && PhaseOk(cmd, p) && (p.Answering? || p.HalfStatus?)
    ensures var s := SniffAt(s0, cmd, p); var s1 := S.OnByte(s, 0x60);
      && s1 != s
      && (p.Answering? ==> s1.tpdu.got == s.tpdu.got + [0x60])
      && (p.HalfStatus? ==>
            s1 == S.Say(s0, S.TpduReport(cmd.hdr + DataOf(cmd) + [cmd.answer.sw[0], 0x60], {})))
  {
    var h, d, sw := cmd.hdr, DataOf(cmd), cmd.answer.sw;
    if p.Answering? {
      assert (h + d[..p.j])[4] == h[4];
    } else {
      assert h + d + [sw[0]] + [0x60] == h + d + [sw[0], 0x60];
    }
  }

  /** The messages ahead tell the phases with a message in flight apart. */
  lemma PhaseIsAhead(cmd: Cmd, last: H.Apdu, p: Phase, q: Phase)
    requires Valid(cmd, last) && PhaseOk(cmd, p) && PhaseOk(cmd, q)
    requires (p.Answering? || p.HalfStatus?) && (q.Answering? || q.HalfStatus?)
    requires AheadAt(cmd, p) == AheadAt(cmd, q)
    ensures p == q
  {
    assert |AheadAt(cmd, p)| == if p.Answering? then 2 else 1;
    assert |AheadAt(cmd, q)| == if q.Answering? then 2 else 1;
    if p.Answering? && q.Answering? {
      assert AheadAt(cmd, p)[0].data == AheadAt(cmd, q)[0].data;
      assert |DataOf(cmd)[p.j..]| == |DataOf(cmd)[q.j..]|;
    }
  }

  /** Half time in flight brings the parts out of step: afterwards they are together in no phase at all. */
  lemma TimerDisturbs(y: Sys, s0: S.Sniff, last: H.Apdu, cmd: Cmd, p: Phase)
    requires At(y, s0, last, cmd, p) && Disturbs(y)
    ensures var y1 := Step(y, cmd, TimerRound);
      && y1.s == S.OnByte(SniffAt(s0, cmd, p), 0x60) != SniffAt(s0, cmd, p)
      && !InPhase(y1, s0, last, cmd)
  {
    var y1 := Step(y, cmd, TimerRound);
    HalfTimeHeard(y, cmd);
    NullInFlight(s0, cmd, last, p);
    NoPhase(y, y1, s0, last, cmd, p);
  }

  lemma HalfTimeHeard(y: Sys, cmd: Cmd)
    requires R.Inv(y.e) && y.e.iso == E.InTpdu && y.e.tpdu in {E.WaitPb, E.WaitTx} && TellsHalf(y.e)
    ensures var y1 := Step(y, cmd, TimerRound);
      && y1 == y.(e := y1.e, s := S.OnByte(y.s, 0x60))
      && y1.e == y.e.(timer := y1.e.timer, log := y1.e.log)
  {
    RoundIs(y.e);
  }

  /** With another state of the sniffer, they are in none. */
  lemma NoPhase(y: Sys, y1: Sys, s0: S.Sniff, last: H.Apdu, cmd: Cmd, p: Phase)
    requires At(y, s0, last, cmd, p) && y.e.tx.Some? && y1.s != y.s
    requires y1 == y.(e := y1.e, s := y1.s) && y1.e == y.e.(timer := y1.e.timer, log := y1.e.log)
    ensures !InPhase(y1, s0, last, cmd)
  {
    if q :| At(y1, s0, last, cmd, q) {
      SamePhase(y, y1, s0, last, cmd, p, q);
      assert false;
    }
  }

  /** The messages ahead tell in which phase the parts would be together. */
  lemma SamePhase(y: Sys, y1: Sys, s0: S.Sniff, last: H.Apdu, cmd: Cmd, p: Phase, q: Phase)
    requires At(y, s0, last, cmd, p) && At(y1, s0, last, cmd, q) && y.e.tx.Some?
    requires y1 == y.(e := y1.e, s := y1.s) && y1.e == y.e.(timer := y1.e.timer, log := y1.e.log)
    ensures q == p
  {
    assert Ahead(y1, cmd) == Ahead(y, cmd);
    PhaseIsAhead(cmd, last, p, q);
  }

  /** The parts are together in some phase of the command. */
  ghost predicate InPhase(y: Sys, s0: S.Sniff, last: H.Apdu, cmd: Cmd) {
    exists p :: At(y, s0, last, cmd, p)
  }

  // ---------------------------------------------------------------- steps of the transmitter

  /** A byte of a message goes out while the emulator waits for the host, or transmits. */
  lemma TxStep(e: E.Emu, m: E.TxMsg)
    requires R.Inv(e) && e.iso == E.InTpdu && e.tpdu in {E.WaitPb, E.WaitTx} && e.uart == E.TxOn
    requires E.NextMsg(e) == E.Some(m) && m.data != []
    ensures var e1, rest := E.OnTxReady(e), m.data[1..];
      && e1.log == e.log + [E.Sent(m.data[0], E.FromHost)]
      && e1.toHost == e.toHost && e1.hdr == e.hdr && e1.rx == e.rx
      && e1.queue == (if e.tx.Some? then e.queue else e.queue[1..])
      && e1.tx == (if rest == [] then E.None else E.Some(m.(data := rest)))
    ensures var e1, rest := E.OnTxReady(e), m.data[1..];
      && (E.PbAndTx in m.flags && E.PbAndRx !in m.flags && (E.Final !in m.flags || rest != []) ==>
            e1.iso == E.InTpdu && e1.tpdu == E.WaitTx && e1.uart == E.TxOn)
      && (E.PbAndTx in m.flags && E.PbAndRx !in m.flags && E.Final in m.flags && rest == [] ==>
            e1.iso == E.WaitTpdu && e1.uart == E.RxOn)
      && (m.flags == {E.PbAndRx} && e.tpdu == E.WaitPb ==>
            e1.iso == E.InTpdu && e1.tpdu == E.WaitRx && e1.uart == E.RxOn)
  {
    var e0 := if e.tx.Some? then e else e.(tx := E.Some(m), queue := e.queue[1..]);
    var e2 := E.RestartTimer(E.Send(e0, m.data[0], E.FromHost));
    assert E.TxByte(e) == (E.AfterTx(e2, m.(data := m.data[1..])), true);
    FlagsFollowed(e2, m.(data := m.data[1..]));
  }

  lemma FlagsFollowed(e: E.Emu, m: E.TxMsg)
    requires e.iso == E.InTpdu && e.tpdu in {E.WaitPb, E.WaitTx} && e.uart == E.TxOn
    ensures var e1 := E.AfterTx(e, m);
      && e1.log == e.log && e1.toHost == e.toHost && e1.hdr == e.hdr && e1.rx == e.rx && e1.queue == e.queue
      && e1.tx == (if m.data == [] then E.None else E.Some(m))
      && (E.PbAndTx in m.flags && E.PbAndRx !in m.flags && (E.Final !in m.flags || m.data != []) ==>
            e1.iso == E.InTpdu && e1.tpdu == E.WaitTx && e1.uart == E.TxOn)
      && (E.PbAndTx in m.flags && E.PbAndRx !in m.flags && E.Final in m.flags && m.data == [] ==>
            e1.iso == E.WaitTpdu && e1.uart == E.RxOn)
      && (m.flags == {E.PbAndRx} && e.tpdu == E.WaitPb ==>
            e1.iso == E.InTpdu && e1.tpdu == E.WaitRx && e1.uart == E.RxOn)
  {
    PbFollowed(e, m);
    if m.data == [] {
      EndFollowed(E.AfterPb(e, m), m.flags);
    }
  }

  /** The flags of the procedure byte. */
  lemma PbFollowed(e: E.Emu, m: E.TxMsg)
    requires e.iso == E.InTpdu && e.tpdu in {E.WaitPb, E.WaitTx} && e.uart == E.TxOn
    ensures var e1 := E.AfterPb(e, m);
      && e1 == e.(tpdu := e1.tpdu, timer := e1.timer, uart := e1.uart)
      && (E.PbAndTx in m.flags ==> e1.tpdu == E.WaitTx && e1.uart == E.TxOn)
      && (m.flags == {E.PbAndRx} && e.tpdu == E.WaitPb ==> e1.tpdu == E.WaitRx && e1.uart == E.RxOn)
  {
  }

  /** The flags at the end of a message. */
  lemma EndFollowed(e: E.Emu, flags: set<E.DataFlag>)
    requires e.iso == E.InTpdu
    ensures var e1 := E.EndOfMsg(e, flags);
      && e1 == e.(iso := e1.iso, tpdu := e1.tpdu, timer := e1.timer, uart := e1.uart, tx := E.None)
      && (E.PbAndRx !in flags && E.Final !in flags ==> e1 == e.(tx := E.None))
      && (E.PbAndRx !in flags && E.Final in flags ==> e1.iso == E.WaitTpdu && e1.uart == E.RxOn)
      && (E.PbAndRx in flags && e.tpdu == E.WaitRx ==> e1 == e.(tx := E.None))
  {
  }

  /** The phase after the next byte of the host's messages. */
  function AfterByte(cmd: Cmd, p: Phase): Phase {
    match p
    case Ack => if cmd.data != [] then Receiving(0) else Answering(0)
    case Answering(j) => if j + 1 < |DataOf(cmd)| then Answering(j + 1) else Status
    case Status => HalfStatus
    case _ => Done
  }

  /** A data byte in a run of them. */
  lemma SniffDataByte(s0: S.Sniff, h: seq<byte>, d: seq<byte>, j: nat)
    requires SniffReady(s0) && |h| == 5 && j < |d| == DataBytes(h[4])
    ensures S.OnByte(InTpdu(s0, S.DataRemaining, h + d[..j]), d[j])
      == InTpdu(s0, if j + 1 < |d| then S.DataRemaining else S.Procedure, h + d[..j + 1])
  {
    var got := h + d[..j];
    assert got + [d[j]] == h + d[..j + 1];
    assert got[4] == h[4] && |got| == 5 + j;
  }

  /** The byte is the one the sniffer expects in the phase. */
  lemma SniffFollows(s0: S.Sniff, cmd: Cmd, last: H.Apdu, p: Phase)
    requires SniffReady(s0) && Valid(cmd, last) && PhaseOk(cmd, p) && AheadAt(cmd, p) != []
    requires AheadAt(cmd, p)[0].data != []
    ensures S.OnByte(SniffAt(s0, cmd, p), AheadAt(cmd, p)[0].data[0]) == SniffAt(s0, cmd, AfterByte(cmd, p))
  {
    var h, d := cmd.hdr, DataOf(cmd);
    match p
    case Ack => SniffAck(s0, cmd, last);
    case Answering(j) =>
      SniffDataByte(s0, h, d, j);
      assert d[..|d|] == d;
    case Status => SniffSw1(s0, cmd, last);
    case HalfStatus => SniffSw2(s0, cmd, last);
    case _ =>
  }

  lemma SniffAck(s0: S.Sniff, cmd: Cmd, last: H.Apdu)
    requires SniffReady(s0) && Valid(cmd, last) && PhaseOk(cmd, Ack)
    ensures S.OnByte(SniffAt(s0, cmd, Ack), cmd.hdr[1]) == InTpdu(s0, S.DataRemaining, cmd.hdr + DataOf(cmd)[..0])
  {
    T.ProcedureBytesDiffer(cmd.hdr[1]);
    assert cmd.hdr + DataOf(cmd)[..0] == cmd.hdr;
  }

  lemma SniffSw1(s0: S.Sniff, cmd: Cmd, last: H.Apdu)
    requires SniffReady(s0) && Valid(cmd, last)
    ensures S.OnByte(SniffAt(s0, cmd, Status), cmd.answer.sw[0]) == SniffAt(s0, cmd, HalfStatus)
  {
    T.ProcedureBytesDiffer(cmd.hdr[1]);
    assert (cmd.hdr + DataOf(cmd))[1] == cmd.hdr[1];
  }

  lemma SniffSw2(s0: S.Sniff, cmd: Cmd, last: H.Apdu)
    requires SniffReady(s0) && Valid(cmd, last)
    ensures S.OnByte(SniffAt(s0, cmd, HalfStatus), cmd.answer.sw[1]) == SniffAt(s0, cmd, Done)
  {
    var sw := cmd.answer.sw;
    assert cmd.hdr + DataOf(cmd) + [sw[0]] + [sw[1]] == PacketOf(cmd) by {
      assert sw == [sw[0]] + [sw[1]];
    }
  }

  /** The messages ahead after the first byte of the first one is gone. */
  lemma AheadFollows(cmd: Cmd, last: H.Apdu, p: Phase)
    requires Valid(cmd, last) && PhaseOk(cmd, p) && AheadAt(cmd, p) != []
    ensures var m := AheadAt(cmd, p)[0]; var a1 := AheadAt(cmd, AfterByte(cmd, p));
      && m.data != []
      && a1 == (if |m.data| == 1 then [] else [m.(data := m.data[1..])]) + AheadAt(cmd, p)[1..]
      && (AfterByte(cmd, p).Answering? || AfterByte(cmd, p).HalfStatus? <==> |m.data| > 1)
  {
    var d, sw, a := DataOf(cmd), cmd.answer.sw, AheadAt(cmd, p);
    match p
    case Ack =>
      assert cmd.data == [] ==> a[0].data[1..] == d[0..];
      assert cmd.data != [] ==> a[1..] == [];
    case Answering(j) =>
      assert d[j..][1..] == d[j + 1..];
      assert a[1..] == [H.SwMsg(sw)];
    case Status => assert sw[1..] == [sw[1]] && a[1..] == [];
    case HalfStatus => assert a[1..] == [];
    case _ =>
  }

  lemma TxKeeps(y: Sys, s0: S.Sniff, last: H.Apdu, cmd: Cmd, p: Phase)
    requires At(y, s0, last, cmd, p) && y.e.uart == E.TxOn && E.NextMsg(y.e).Some?
    ensures At(Step(y, cmd, TxReady), s0, last, cmd, AfterByte(cmd, p))
  {
    FirstAhead(y, cmd);
    R.TxReadyKeeps(y.e);
    ByteMoves(y, E.OnTxReady(y.e), s0, last, cmd, p);
  }

  /** Emulator, sniffer and the messages ahead after the next byte. */
  lemma ByteMoves(y: Sys, e1: E.Emu, s0: S.Sniff, last: H.Apdu, cmd: Cmd, p: Phase)
    requires At(y, s0, last, cmd, p) && y.e.uart == E.TxOn && E.NextMsg(y.e).Some?
    requires Ahead(y, cmd) != [] && Ahead(y, cmd)[0] == E.NextMsg(y.e).value
    requires |y.e.queue| + (if y.e.tx.Some? then 1 else 0) <= |Ahead(y, cmd)|
    requires e1 == E.OnTxReady(y.e) && R.Inv(e1)
    ensures At(WithEmu(y, e1), s0, last, cmd, AfterByte(cmd, p))
  {
    var m := E.NextMsg(y.e).value;
    AheadFollows(cmd, last, p);
    EmuFollows(y.e, cmd, last, p, m);
    Overheard(y, e1, m.data[0]);
    SniffFollows(s0, cmd, last, p);
    AheadShrinks(y, cmd, m, WithEmu(y, e1));
    RestFollows(cmd, last, p);
  }

  lemma Overheard(y: Sys, e1: E.Emu, b: byte)
    requires e1.log == y.e.log + [E.Sent(b, E.FromHost)]
    ensures WithEmu(y, e1) == y.(e := e1, s := S.OnByte(y.s, b))
  {
  }

  /** The message to transmit from is the first one ahead. */
  lemma FirstAhead(y: Sys, cmd: Cmd)
    requires HostUpToDate(y, cmd) && E.NextMsg(y.e).Some?
    ensures Ahead(y, cmd) != [] && Ahead(y, cmd)[0] == E.NextMsg(y.e).value
    ensures |y.e.queue| + (if y.e.tx.Some? then 1 else 0) <= |Ahead(y, cmd)|
  {
  }

  /** Nothing else changes with a byte of the host. */
  lemma RestFollows(cmd: Cmd, last: H.Apdu, p: Phase)
    requires Valid(cmd, last) && PhaseOk(cmd, p) && AheadAt(cmd, p) != []
    ensures var p1 := AfterByte(cmd, p);
      PhaseOk(cmd, p1) && SentAt(cmd, p1) == SentAt(cmd, p) && ApduAt(last, cmd, p1) == ApduAt(last, cmd, p)
  {
  }

  lemma EmuFollows(e: E.Emu, cmd: Cmd, last: H.Apdu, p: Phase, m: E.TxMsg)
    requires R.Inv(e) && Valid(cmd, last) && PhaseOk(cmd, p) && EmuAt(e, cmd, p) && Flight(e, p)
    requires e.uart == E.TxOn && E.NextMsg(e) == E.Some(m)
    requires AheadAt(cmd, p) != [] && m == AheadAt(cmd, p)[0] && m.data != []
    requires |e.queue| + (if e.tx.Some? then 1 else 0) <= |AheadAt(cmd, p)|
    ensures var e1 := E.OnTxReady(e);
      && EmuAt(e1, cmd, AfterByte(cmd, p)) && Flight(e1, AfterByte(cmd, p))
      && e1.log == e.log + [E.Sent(m.data[0], E.FromHost)] && e1.toHost == e.toHost
      && e1.queue == (if e.tx.Some? then e.queue else e.queue[1..])
      && e1.tx == (if |m.data| == 1 then E.None else E.Some(m.(data := m.data[1..])))
  {
    TxStep(e, m);
    AheadFollows(cmd, last, p);
    assert cmd.data[..0] == [];
  }

  lemma AheadShrinks(y: Sys, cmd: Cmd, m: E.TxMsg, y1: Sys)
    requires HostUpToDate(y, cmd) && E.NextMsg(y.e) == E.Some(m) && m.data != []
    requires y1 == y.(e := y1.e, s := y1.s) && y1.e.toHost == y.e.toHost
    requires y1.e.queue == if y.e.tx.Some? then y.e.queue else y.e.queue[1..]
    requires y1.e.tx == if |m.data| == 1 then E.None else E.Some(m.(data := m.data[1..]))
    ensures HostUpToDate(y1, cmd) && Settled(y1, cmd) == Settled(y, cmd)
    ensures Ahead(y, cmd) != []
      && Ahead(y1, cmd) == (if |m.data| == 1 then [] else [m.(data := m.data[1..])]) + Ahead(y, cmd)[1..]
  {
    var first, rest := if y.e.tx.Some? then [y.e.tx.value] else [], Settled(y, cmd).1;
    var first1 := if |m.data| == 1 then [] else [m.(data := m.data[1..])];
    if y.e.tx.None? {
      assert y.e.queue == [m] + y1.e.queue;
      assert first + y.e.queue == [m] + y1.e.queue;
    }
    Regroup([m], y1.e.queue, y.out, rest);
    Regroup(first1, y1.e.queue, y.out, rest);
  }

  lemma Regroup(a: seq<E.TxMsg>, b: seq<E.TxMsg>, c: seq<E.TxMsg>, d: seq<E.TxMsg>)
    ensures a + b + c + d == a + (b + c + d)
    ensures |a| == 1 ==> (a + b + c + d)[1..] == b + c + d
  {
  }

  lemma TxReadyKeeps(y: Sys, s0: S.Sniff, last: H.Apdu, cmd: Cmd, p: Phase)
    requires At(y, s0, last, cmd, p)
    ensures At(Step(y, cmd, TxReady), s0, last, cmd,
               if y.e.uart == E.TxOn && E.NextMsg(y.e).Some? then AfterByte(cmd, p) else p)
  {
    if y.e.uart == E.TxOn && E.NextMsg(y.e).Some? {
      TxKeeps(y, s0, last, cmd, p);
    } else {
      var y1 := Step(y, cmd, TxReady);
      R.TxReadyKeeps(y.e);
      assert p in {Ack, Status} || y.e.uart != E.TxOn;
      NothingToSend(y.e);
      assert y1 == y.(e := y1.e);
      assert Ahead(y1, cmd) == Ahead(y, cmd);
    }
  }

  /** Without a message the transmit interrupt is turned off, and nothing else happens. */
  lemma NothingToSend(e: E.Emu)
    requires R.Inv(e) && (e.uart != E.TxOn || (e.iso == E.InTpdu && E.NextMsg(e).None?))
    ensures E.OnTxReady(e) == e.(uart := if e.uart == E.TxOn then E.TimerOnly else e.uart)
  {
  }

  // ---------------------------------------------------------------- steps of the reader

  /** What the host makes of the complete header. */
  lemma HostOfHeader(last: H.Apdu, cmd: Cmd)
    requires Valid(cmd, last)
    ensures var m := E.RxData(cmd.hdr, {E.TpduHdr}); var r := H.OnRxData(last, m, cmd.kind, E.Some(cmd.answer));
      var p := if DataOf(cmd) == [] then Status else Ack;
      r == E.Some((ApduAt(last, cmd, p), AheadAt(cmd, p)))
  {
    var m, p := E.RxData(cmd.hdr, {E.TpduHdr}), if DataOf(cmd) == [] then Status else Ack;
    assert cmd.hdr[..5] == cmd.hdr && cmd.hdr[5..5 + 0] == [];
    var ac := H.Begin(last, cmd.hdr, cmd.kind);
    assert ac == H.Apdu(cmd.hdr, [], |cmd.data|, [0, 0], H.KindOf(last, cmd.hdr, cmd.kind));
    var r := H.Respond(ac, E.Some(cmd.answer));
    assert r.0 == ApduAt(last, cmd, p);
    assert r.1 == AheadAt(cmd, p);
  }

  /** What the host makes of the complete data. */
  lemma HostOfData(ac: H.Apdu, last: H.Apdu, cmd: Cmd)
    requires Valid(cmd, last) && cmd.data != [] && ac == ApduAt(last, cmd, Receiving(0))
    ensures H.Sound(ac)
    ensures var m := E.RxData(cmd.data, {E.Final}); var r := H.OnRxData(ac, m, cmd.kind, E.Some(cmd.answer));
      r == E.Some((Finished(last, cmd), AheadAt(cmd, Status)))
  {
    DataComplete(ac, cmd.data);
    var r := H.Respond(ac.(dc := cmd.data), E.Some(cmd.answer));
    assert r.0 == Finished(last, cmd);
    assert r.1 == AheadAt(cmd, Status);
  }

  lemma DataComplete(ac: H.Apdu, data: seq<byte>)
    requires H.Wf(ac) && ac.kind in {3, 4} && ac.dc == [] && ac.lc == |data|
    ensures H.Append(ac, data) == ac.(dc := data)
  {
    assert ac.dc + data[..|data|] == data;
  }

  lemma HeaderStep(e: E.Emu, cmd: Cmd, k: nat)
    requires R.Inv(e) && |cmd.hdr| == 5 && k < 4 && cmd.hdr[0] != 0xff && EmuAt(e, cmd, Header(k))
    ensures var e1 := E.RxByte(e, cmd.hdr[k]);
      && EmuAt(e1, cmd, Header(k + 1)) && e1.log == e.log && e1.toHost == e.toHost
      && e1.tx == e.tx && e1.queue == e.queue
  {
    assert cmd.hdr[..k + 1] == cmd.hdr[..k] + [cmd.hdr[k]];
    assert e.hdr[k := cmd.hdr[k]][..k + 1] == e.hdr[..k] + [cmd.hdr[k]];
  }

  lemma HeaderEnd(e: E.Emu, cmd: Cmd)
    requires R.Inv(e) && |cmd.hdr| == 5 && EmuAt(e, cmd, Header(4))
    ensures var e1 := E.RxByte(e, cmd.hdr[4]);
      && EmuAt(e1, cmd, Ack) && e1.uart == E.TxOn && e1.log == e.log && e1.tx == e.tx && e1.queue == e.queue
      && e1.toHost == e.toHost + [E.RxData(cmd.hdr, {E.TpduHdr})]
  {
    assert cmd.hdr == cmd.hdr[..4] + [cmd.hdr[4]];
    assert e.hdr[4 := cmd.hdr[4]] == e.hdr[..4] + [cmd.hdr[4]];
  }

  lemma DataStep(e: E.Emu, cmd: Cmd, j: nat)
    requires R.Inv(e) && |cmd.hdr| == 5 && |cmd.data| == cmd.hdr[4] as int && EmuAt(e, cmd, Receiving(j))
    ensures var e1 := E.RxByte(e, cmd.data[j]);
      && e1.log == e.log && e1.tx == e.tx && e1.queue == e.queue
      && (j + 1 < |cmd.data| ==> EmuAt(e1, cmd, Receiving(j + 1)) && e1.toHost == e.toHost)
      && (j + 1 == |cmd.data| ==>
            EmuAt(e1, cmd, Status) && e1.uart == E.TxOn && e1.toHost == e.toHost + [E.RxData(cmd.data, {E.Final})])
  {
    PrefixGrows(cmd.data, j);
    DataByte(e, cmd.data[j], cmd.data[..j + 1]);
  }

  /** A byte of the data, `data` being those received with it. */
  lemma DataByte(e: E.Emu, b: byte, data: seq<byte>)
    requires R.Inv(e) && e.iso == E.InTpdu && e.tpdu == E.WaitRx
    requires data == (if e.rx.Some? then e.rx.value else []) + [b]
    ensures var e1 := E.RxByte(e, b);
      && (|data| < e.hdr[4] as int ==> e1 == e.(rx := E.Some(data)))
      && (|data| >= e.hdr[4] as int ==>
            e1 == e.(rx := E.None, toHost := e.toHost + [E.RxData(data, {E.Final})], tpdu := E.WaitTx, uart := E.TxOn,
                     timer := e1.timer))
  {
  }

  lemma PrefixGrows(d: seq<byte>, j: nat)
    requires j < |d|
    ensures d[..j] + [d[j]] == d[..j + 1] && (j == 0 ==> [] + [d[0]] == d[..1]) && d[..|d|] == d
  {
  }

  lemma SniffHeader(s0: S.Sniff, cmd: Cmd, last: H.Apdu, k: nat)
    requires SniffReady(s0) && Valid(cmd, last) && k < 5
    ensures S.OnByte(SniffAt(s0, cmd, Header(k)), cmd.hdr[k])
      == SniffAt(s0, cmd, if k < 4 then Header(k + 1) else if DataOf(cmd) == [] then Status else Ack)
  {
    var h := cmd.hdr;
    assert h[..k] + [h[k]] == h[..k + 1] && h[..5] == h;
    assert h + [] == h && h[..0] == [];
  }

  lemma SniffData(s0: S.Sniff, cmd: Cmd, last: H.Apdu, j: nat)
    requires SniffReady(s0) && Valid(cmd, last) && j < |cmd.data|
    ensures S.OnByte(SniffAt(s0, cmd, Receiving(j)), cmd.data[j])
      == SniffAt(s0, cmd, if j + 1 < |cmd.data| then Receiving(j + 1) else Status)
  {
    SniffDataByte(s0, cmd.hdr, cmd.data, j);
    assert cmd.data[..|cmd.data|] == cmd.data;
  }

  /** The phase after a byte of the reader. */
  function AfterReader(cmd: Cmd, p: Phase): Phase {
    match p
    case Header(k) => if k < 4 then Header(k + 1) else if DataOf(cmd) == [] then Status else Ack
    case Receiving(j) => if j + 1 < |cmd.data| then Receiving(j + 1) else Status
    case _ => p
  }

  lemma ReaderHeader(y: Sys, s0: S.Sniff, last: H.Apdu, cmd: Cmd, k: nat)
    requires At(y, s0, last, cmd, Header(k))
    ensures ReaderMay(y, cmd) && At(Step(y, cmd, ReaderByte), s0, last, cmd, AfterReader(cmd, Header(k)))
  {
    assert (cmd.hdr + cmd.data)[k] == cmd.hdr[k];
    R.ReaderKeeps(y.e, cmd.hdr[k]);
    SniffHeader(s0, cmd, last, k);
    NothingAhead(y, cmd);
    if k < 4 {
      HeaderStep(y.e, cmd, k);
      MoreHeader(Step(y, cmd, ReaderByte), s0, last, cmd, k + 1);
    } else {
      HeaderEnd(y.e, cmd);
      LastHeader(Step(y, cmd, ReaderByte), s0, last, cmd, AfterReader(cmd, Header(4)));
    }
  }

  lemma MoreHeader(y: Sys, s0: S.Sniff, last: H.Apdu, cmd: Cmd, k: nat)
    requires R.Inv(y.e) && Valid(cmd, last) && SniffReady(s0) && PhaseOk(cmd, Header(k))
    requires EmuAt(y.e, cmd, Header(k)) && y.s == SniffAt(s0, cmd, Header(k)) && y.sent == k && y.ac == last
    requires y.e.tx.None? && y.e.queue == [] && y.out == [] && y.told == |y.e.toHost|
    ensures At(y, s0, last, cmd, Header(k))
  {
    NoneAhead(y, cmd);
  }

  lemma LastHeader(y: Sys, s0: S.Sniff, last: H.Apdu, cmd: Cmd, p: Phase)
    requires R.Inv(y.e) && Valid(cmd, last) && SniffReady(s0) && p == if DataOf(cmd) == [] then Status else Ack
    requires EmuAt(y.e, cmd, Ack) && y.e.uart == E.TxOn && y.s == SniffAt(s0, cmd, p) && y.sent == 5 && y.ac == last
    requires y.e.tx.None? && y.e.queue == [] && y.out == [] && y.told == |y.e.toHost| - 1
    requires y.e.toHost[y.told] == E.RxData(cmd.hdr, {E.TpduHdr})
    ensures At(y, s0, last, cmd, p)
  {
    HostOfHeader(last, cmd);
    OneToHandle(y, cmd, E.RxData(cmd.hdr, {E.TpduHdr}));
  }

  /** With no message ahead, all are handled and none is on its way. */
  lemma NothingAhead(y: Sys, cmd: Cmd)
    requires HostUpToDate(y, cmd) && Ahead(y, cmd) == []
    ensures y.e.tx.None? && y.e.queue == [] && y.out == [] && y.told == |y.e.toHost| && y.ac == Settled(y, cmd).0
  {
    assert Settled(y, cmd).1 == [];
    Handled(y, cmd);
  }

  lemma NoneAhead(y: Sys, cmd: Cmd)
    requires H.Sound(y.ac) && |cmd.answer.sw| == 2 && y.told == |y.e.toHost|
    requires y.e.tx.None? && y.e.queue == [] && y.out == []
    ensures HostUpToDate(y, cmd) && Settled(y, cmd) == (y.ac, []) && Ahead(y, cmd) == []
  {
  }

  /** The emulator has just told `m`. */
  lemma OneToHandle(y: Sys, cmd: Cmd, m: E.ToHost)
    requires H.Sound(y.ac) && |cmd.answer.sw| == 2 && y.told == |y.e.toHost| - 1 && y.e.toHost[y.told] == m && m.RxData?
    requires if E.TpduHdr in m.flags then |m.data| == 5 else H.Fits(y.ac, m.data)
    requires H.OnRxData(y.ac, m, cmd.kind, E.Some(cmd.answer)).Some?
    requires y.e.tx.None? && y.e.queue == [] && y.out == []
    ensures HostUpToDate(y, cmd)
    ensures var r := H.OnRxData(y.ac, m, cmd.kind, E.Some(cmd.answer)).value;
      Settled(y, cmd) == r && Ahead(y, cmd) == r.1
  {
    assert [] + y.e.queue + y.out + Settled(y, cmd).1 == Settled(y, cmd).1;
  }

  /** A message of the emulator always gets an answer: without one, nothing is left to handle. */
  lemma Handled(y: Sys, cmd: Cmd)
    requires HostUpToDate(y, cmd) && Settled(y, cmd).1 == []
    ensures y.told == |y.e.toHost| && y.ac == Settled(y, cmd).0
  {
  }

  lemma ReaderData(y: Sys, s0: S.Sniff, last: H.Apdu, cmd: Cmd, j: nat)
    requires At(y, s0, last, cmd, Receiving(j))
    ensures ReaderMay(y, cmd) && At(Step(y, cmd, ReaderByte), s0, last, cmd, AfterReader(cmd, Receiving(j)))
  {
    assert (cmd.hdr + cmd.data)[5 + j] == cmd.data[j];
    R.ReaderKeeps(y.e, cmd.data[j]);
    NothingAhead(y, cmd);
    DataMoves(y, E.RxByte(y.e, cmd.data[j]), s0, last, cmd, j);
  }

  /** Emulator, sniffer and the messages ahead after a data byte of the reader. */
  lemma DataMoves(y: Sys, e1: E.Emu, s0: S.Sniff, last: H.Apdu, cmd: Cmd, j: nat)
    requires At(y, s0, last, cmd, Receiving(j)) && e1 == E.RxByte(y.e, cmd.data[j]) && R.Inv(e1)
    requires y.e.tx.None? && y.e.queue == [] && y.out == [] && y.told == |y.e.toHost| && y.ac == Settled(y, cmd).0
    ensures var y1 := y.(e := e1, s := S.OnByte(y.s, cmd.data[j]), sent := y.sent + 1);
      At(y1, s0, last, cmd, AfterReader(cmd, Receiving(j)))
  {
    var y1 := y.(e := e1, s := S.OnByte(y.s, cmd.data[j]), sent := y.sent + 1);
    DataStep(y.e, cmd, j);
    SniffData(s0, cmd, last, j);
    if j + 1 < |cmd.data| {
      MoreData(y1, s0, last, cmd, j + 1);
    } else {
      LastData(y1, s0, last, cmd);
    }
  }

  lemma MoreData(y: Sys, s0: S.Sniff, last: H.Apdu, cmd: Cmd, j: nat)
    requires R.Inv(y.e) && Valid(cmd, last) && SniffReady(s0) && PhaseOk(cmd, Receiving(j))
    requires EmuAt(y.e, cmd, Receiving(j)) && y.s == SniffAt(s0, cmd, Receiving(j)) && y.sent == 5 + j
    requires y.e.tx.None? && y.e.queue == [] && y.out == [] && y.told == |y.e.toHost|
    requires y.ac == ApduAt(last, cmd, Receiving(j))
    ensures At(y, s0, last, cmd, Receiving(j))
  {
    NoneAhead(y, cmd);
  }

  lemma LastData(y: Sys, s0: S.Sniff, last: H.Apdu, cmd: Cmd)
    requires R.Inv(y.e) && Valid(cmd, last) && SniffReady(s0) && cmd.data != []
    requires EmuAt(y.e, cmd, Status) && y.e.uart == E.TxOn && y.s == SniffAt(s0, cmd, Status)
    requires y.sent == 5 + |cmd.data|
    requires y.e.tx.None? && y.e.queue == [] && y.out == [] && y.told == |y.e.toHost| - 1
    requires y.e.toHost[y.told] == E.RxData(cmd.data, {E.Final}) && y.ac == ApduAt(last, cmd, Receiving(0))
    ensures At(y, s0, last, cmd, Status)
  {
    HostOfData(y.ac, last, cmd);
    OneToHandle(y, cmd, E.RxData(cmd.data, {E.Final}));
  }

  lemma ReaderKeeps(y: Sys, s0: S.Sniff, last: H.Apdu, cmd: Cmd, p: Phase)
    requires At(y, s0, last, cmd, p)
    ensures At(Step(y, cmd, ReaderByte), s0, last, cmd, AfterReader(cmd, p))
  {
    match p
    case Header(k) => ReaderHeader(y, s0, last, cmd, k);
    case Receiving(j) => ReaderData(y, s0, last, cmd, j);
    case _ => assert !ReaderMay(y, cmd);
  }

  // ---------------------------------------------------------------- the whole command

  /** The phase after a step. */
  function After(y: Sys, cmd: Cmd, p: Phase, ev: Event): Phase {
    match ev
    case ReaderByte => AfterReader(cmd, p)
    case TxReady => if y.e.uart == E.TxOn && E.NextMsg(y.e).Some? then AfterByte(cmd, p) else p
    case _ => p
  }

  /** The event leaves the parts together. */
  predicate Harmless(y: Sys, ev: Event)
    requires R.Inv(y.e)
  {
    ev == TimerRound ==> !Disturbs(y)
  }

  lemma AnyStep(y: Sys, s0: S.Sniff, last: H.Apdu, cmd: Cmd, p: Phase, ev: Event)
    requires At(y, s0, last, cmd, p) && Harmless(y, ev)
    ensures At(Step(y, cmd, ev), s0, last, cmd, After(y, cmd, p, ev))
  {
    match ev
    case ReaderByte => ReaderKeeps(y, s0, last, cmd, p);
    case TxReady => TxReadyKeeps(y, s0, last, cmd, p);
    case TimerRound => TimerKeeps(y, s0, last, cmd, p);
    case HostReads => HostReadsKeeps(y, s0, last, cmd, p);
    case Delivery => DeliveryKeeps(y, s0, last, cmd, p);
  }

  /** What the card has been asked once the host has handled the last message of the emulator. */
  function AskedNow(y: Sys, cmd: Cmd): seq<seq<byte>>
    requires HostUpToDate(y, cmd)
  {
    y.asked + if y.told == |y.e.toHost| then [] else H.Asked(y.ac, y.e.toHost[y.told], cmd.kind)
  }

  /** The card is asked when the command is complete: with the header if no data follow it. */
  function AskedAt(cmd: Cmd, p: Phase): seq<seq<byte>> {
    if p.Header? || p.Receiving? || (p == Ack && cmd.data != []) then [] else [cmd.hdr + cmd.data]
  }

  lemma AskedByHeader(last: H.Apdu, cmd: Cmd)
    requires Valid(cmd, last)
    ensures H.Asked(last, E.RxData(cmd.hdr, {E.TpduHdr}), cmd.kind) == AskedAt(cmd, AfterReader(cmd, Header(4)))
  {
    assert cmd.hdr[..5] == cmd.hdr && cmd.hdr[5..5 + 0] == [];
    var ac := H.Begin(last, cmd.hdr, cmd.kind);
    assert ac == H.Apdu(cmd.hdr, [], |cmd.data|, [0, 0], H.KindOf(last, cmd.hdr, cmd.kind));
    assert cmd.data == [] ==> cmd.hdr + [] == cmd.hdr + cmd.data;
  }

  lemma AskedByData(ac: H.Apdu, last: H.Apdu, cmd: Cmd)
    requires Valid(cmd, last) && cmd.data != [] && ac == ApduAt(last, cmd, Receiving(0))
    ensures H.Asked(ac, E.RxData(cmd.data, {E.Final}), cmd.kind) == [cmd.hdr + cmd.data]
  {
    DataComplete(ac, cmd.data);
  }

  /** In the phase, and the card has been asked what it should have been. */
  ghost predicate AtAsked(y: Sys, s0: S.Sniff, last: H.Apdu, cmd: Cmd, p: Phase) {
    At(y, s0, last, cmd, p) && AskedNow(y, cmd) == AskedAt(cmd, p)
  }

  /** The reader completes the header. */
  lemma HeaderAsks(y: Sys, s0: S.Sniff, last: H.Apdu, cmd: Cmd, k: nat)
    requires AtAsked(y, s0, last, cmd, Header(k))
    ensures AtAsked(Step(y, cmd, ReaderByte), s0, last, cmd, AfterReader(cmd, Header(k)))
  {
    ReaderHeader(y, s0, last, cmd, k);
    assert (cmd.hdr + cmd.data)[k] == cmd.hdr[k];
    NothingAhead(y, cmd);
    if k < 4 {
      HeaderStep(y.e, cmd, k);
    } else {
      HeaderEnd(y.e, cmd);
      AskedByHeader(last, cmd);
    }
  }

  /** Or the data. */
  lemma DataAsks(y: Sys, s0: S.Sniff, last: H.Apdu, cmd: Cmd, j: nat)
    requires AtAsked(y, s0, last, cmd, Receiving(j))
    ensures AtAsked(Step(y, cmd, ReaderByte), s0, last, cmd, AfterReader(cmd, Receiving(j)))
  {
    ReaderData(y, s0, last, cmd, j);
    assert (cmd.hdr + cmd.data)[5 + j] == cmd.data[j];
    NothingAhead(y, cmd);
    DataStep(y.e, cmd, j);
    if j + 1 == |cmd.data| {
      AskedByData(y.ac, last, cmd);
    }
  }

  lemma ReaderAsks(y: Sys, s0: S.Sniff, last: H.Apdu, cmd: Cmd, p: Phase)
    requires AtAsked(y, s0, last, cmd, p)
    ensures AtAsked(Step(y, cmd, ReaderByte), s0, last, cmd, AfterReader(cmd, p))
  {
    match p
    case Header(k) => HeaderAsks(y, s0, last, cmd, k);
    case Receiving(j) => DataAsks(y, s0, last, cmd, j);
    case _ => assert !ReaderMay(y, cmd);
  }

  /** The transmitter, the timer and messages on their way do not change what the card is asked. */
  lemma NothingTold(y: Sys, s0: S.Sniff, last: H.Apdu, cmd: Cmd, p: Phase, ev: Event)
    requires At(y, s0, last, cmd, p) && ev in {TxReady, TimerRound, Delivery}
    ensures var y1 := Step(y, cmd, ev); y1 == y.(e := y1.e, s := y1.s, out := y1.out) && y1.e.toHost == y.e.toHost
  {
    if ev == TxReady {
      if y.e.uart == E.TxOn && E.NextMsg(y.e).Some? {
        FirstAhead(y, cmd);
        AheadFollows(cmd, last, p);
        EmuFollows(y.e, cmd, last, p, E.NextMsg(y.e).value);
      } else {
        NothingToSend(y.e);
      }
    } else if ev == TimerRound {
      if p.Header? || p.Receiving? || p.Done? {
        RoundIsOff(y, s0, last, cmd, p);
      } else {
        RoundIs(y.e);
      }
    }
  }

  lemma HostAsks(y: Sys, cmd: Cmd)
    requires R.Inv(y.e) && HostUpToDate(y, cmd) && HostUpToDate(Step(y, cmd, HostReads), cmd)
    ensures AskedNow(Step(y, cmd, HostReads), cmd) == AskedNow(y, cmd)
  {
  }

  /** Every harmless event keeps what the card is asked. */
  lemma AskedKeeps(y: Sys, s0: S.Sniff, last: H.Apdu, cmd: Cmd, p: Phase, ev: Event)
    requires AtAsked(y, s0, last, cmd, p) && Harmless(y, ev)
    ensures AtAsked(Step(y, cmd, ev), s0, last, cmd, After(y, cmd, p, ev))
  {
    if ev == ReaderByte {
      ReaderAsks(y, s0, last, cmd, p);
    } else {
      AnyStep(y, s0, last, cmd, p, ev);
      if ev == HostReads {
        HostAsks(y, cmd);
      } else {
        NothingTold(y, s0, last, cmd, p, ev);
        SameAsked(y, Step(y, cmd, ev), cmd, p);
      }
    }
  }

  lemma SameAsked(y: Sys, y1: Sys, cmd: Cmd, p: Phase)
    requires HostUpToDate(y, cmd) && HostUpToDate(y1, cmd) && PhaseOk(cmd, p)
    requires y1 == y.(e := y1.e, s := y1.s, out := y1.out) && y1.e.toHost == y.e.toHost
    ensures AskedNow(y1, cmd) == AskedNow(y, cmd)
    ensures !p.Header? && !p.Receiving? && p != Done ==> AskedAt(cmd, AfterByte(cmd, p)) == AskedAt(cmd, p)
  {
  }

  /** What the emulator tells the host: the header, and the data once they are complete. */
  function ToldAt(cmd: Cmd, p: Phase): seq<E.ToHost> {
    if p.Header? then []
    else
      [E.RxData(cmd.hdr, {E.TpduHdr})]
      + if cmd.data == [] || p.Ack? || p.Receiving? then [] else [E.RxData(cmd.data, {E.Final})]
  }

  predicate Told(y: Sys, before: seq<E.ToHost>, cmd: Cmd, p: Phase) {
    y.e.toHost == before + ToldAt(cmd, p)
  }

  lemma HeaderTold(y: Sys, s0: S.Sniff, last: H.Apdu, cmd: Cmd, k: nat, before: seq<E.ToHost>)
    requires At(y, s0, last, cmd, Header(k)) && Told(y, before, cmd, Header(k))
    ensures Told(Step(y, cmd, ReaderByte), before, cmd, AfterReader(cmd, Header(k)))
  {
    assert (cmd.hdr + cmd.data)[k] == cmd.hdr[k];
    if k < 4 {
      HeaderStep(y.e, cmd, k);
    } else {
      HeaderEnd(y.e, cmd);
      assert before + [] == before;
    }
  }

  lemma DataTold(y: Sys, s0: S.Sniff, last: H.Apdu, cmd: Cmd, j: nat, before: seq<E.ToHost>)
    requires At(y, s0, last, cmd, Receiving(j)) && Told(y, before, cmd, Receiving(j))
    ensures Told(Step(y, cmd, ReaderByte), before, cmd, AfterReader(cmd, Receiving(j)))
  {
    assert (cmd.hdr + cmd.data)[5 + j] == cmd.data[j];
    DataStep(y.e, cmd, j);
    var first := [E.RxData(cmd.hdr, {E.TpduHdr})];
    assert before + first + [E.RxData(cmd.data, {E.Final})] == before + (first + [E.RxData(cmd.data, {E.Final})]);
    assert first + [] == first;
  }

  /** Every event, half times in flight included. */
  lemma ToldKeeps(y: Sys, s0: S.Sniff, last: H.Apdu, cmd: Cmd, p: Phase, ev: Event, before: seq<E.ToHost>)
    requires At(y, s0, last, cmd, p) && Told(y, before, cmd, p)
    ensures Told(Step(y, cmd, ev), before, cmd, After(y, cmd, p, ev))
  {
    match ev
    case ReaderByte =>
      if p.Header? {
        HeaderTold(y, s0, last, cmd, p.k, before);
      } else if p.Receiving? {
        DataTold(y, s0, last, cmd, p.j, before);
      }
    case HostReads =>
    case _ =>
      NothingTold(y, s0, last, cmd, p, ev);
      ToldByByte(y, s0, last, cmd, p);
  }

  lemma ToldByByte(y: Sys, s0: S.Sniff, last: H.Apdu, cmd: Cmd, p: Phase)
    requires At(y, s0, last, cmd, p)
    ensures y.e.uart == E.TxOn && E.NextMsg(y.e).Some? ==> ToldAt(cmd, AfterByte(cmd, p)) == ToldAt(cmd, p)
  {
    if y.e.uart == E.TxOn && E.NextMsg(y.e).Some? {
      FirstAhead(y, cmd);
    }
  }

  /** Exactly: an event keeps the parts in a phase of the command iff it is not a timer round that tells half time while
      a message is in flight. */
  lemma StepIff(y: Sys, s0: S.Sniff, last: H.Apdu, cmd: Cmd, p: Phase, ev: Event)
    requires At(y, s0, last, cmd, p)
    ensures InPhase(Step(y, cmd, ev), s0, last, cmd) <==> Harmless(y, ev)
  {
    if Harmless(y, ev) {
      AnyStep(y, s0, last, cmd, p, ev);
    } else {
      TimerDisturbs(y, s0, last, cmd, p);
    }
  }

  /** In no state of the run half time is reached while a message is in flight. */
  predicate Undisturbed(y: Sys, cmd: Cmd, evs: seq<Event>)
    requires R.Inv(y.e)
    decreases |evs|
  {
    evs != [] ==>
      && Harmless(y, evs[0])
      && (StepKeeps(y, cmd, evs[0]); Undisturbed(Step(y, cmd, evs[0]), cmd, evs[1..]))
  }

  /** The parts are together at every point of the run. */
  ghost predicate Together(y: Sys, s0: S.Sniff, last: H.Apdu, cmd: Cmd, evs: seq<Event>)
    requires R.Inv(y.e)
    decreases |evs|
  {
    && InPhase(y, s0, last, cmd)
    && (evs != [] ==> (StepKeeps(y, cmd, evs[0]); Together(Step(y, cmd, evs[0]), s0, last, cmd, evs[1..])))
  }

  lemma {:induction false} TogetherIff(y: Sys, s0: S.Sniff, last: H.Apdu, cmd: Cmd, p: Phase, evs: seq<Event>)
    requires At(y, s0, last, cmd, p)
    ensures Together(y, s0, last, cmd, evs) <==> Undisturbed(y, cmd, evs)
    decreases |evs|
  {
    if evs != [] {
      StepKeeps(y, cmd, evs[0]);
      StepIff(y, s0, last, cmd, p, evs[0]);
      if Harmless(y, evs[0]) {
        AnyStep(y, s0, last, cmd, p, evs[0]);
        TogetherIff(Step(y, cmd, evs[0]), s0, last, cmd, After(y, cmd, p, evs[0]), evs[1..]);
      }
    }
  }

  lemma {:induction false} AnyRun(y: Sys, s0: S.Sniff, last: H.Apdu, cmd: Cmd, p: Phase, evs: seq<Event>,
                                  before: seq<E.ToHost>)
    returns (q: Phase)
    requires AtAsked(y, s0, last, cmd, p) && Undisturbed(y, cmd, evs) && Told(y, before, cmd, p)
    ensures AtAsked(Run(y, cmd, evs), s0, last, cmd, q) && Told(Run(y, cmd, evs), before, cmd, q)
    decreases |evs|
  {
    if evs == [] {
      q := p;
    } else {
      AskedKeeps(y, s0, last, cmd, p, evs[0]);
      ToldKeeps(y, s0, last, cmd, p, evs[0], before);
      q := AnyRun(Step(y, cmd, evs[0]), s0, last, cmd, After(y, cmd, p, evs[0]), evs[1..], before);
    }
  }

  /** Between commands: everybody waits, and nothing is on its way. */
  ghost predicate Idle(y: Sys) {
    && R.Inv(y.e) && y.e.iso == E.WaitTpdu && y.e.rx.None? && y.e.tx.None? && y.e.queue == []
    && SniffReady(y.s) && y.told == |y.e.toHost| && y.out == []
  }

  ghost predicate Start(y: Sys, cmd: Cmd) {
    Idle(y) && y.sent == 0 && y.asked == [] && Valid(cmd, y.ac)
  }

  lemma StartsAt(y: Sys, cmd: Cmd)
    requires Start(y, cmd)
    ensures At(y, y.s, y.ac, cmd, Header(0)) && AskedNow(y, cmd) == [] && Told(y, y.e.toHost, cmd, Header(0))
  {
    assert y.e.toHost + [] == y.e.toHost;
    assert y.e.hdr[..0] == cmd.hdr[..0] == [];
  }

  lemma EndsIdle(y: Sys, s0: S.Sniff, last: H.Apdu, cmd: Cmd)
    requires At(y, s0, last, cmd, Done)
    ensures Idle(y) && y.ac == Finished(last, cmd)
  {
    Handled(y, cmd);
  }

  /** The command is over: a byte of it was sent, and the emulator waits for the next one. */
  predicate Over(y: Sys) {
    y.sent > 0 && y.e.iso == E.WaitTpdu
  }

  /** The header, and the data if there are any. */
  function Messages(cmd: Cmd): seq<E.ToHost> {
    [E.RxData(cmd.hdr, {E.TpduHdr})] + if cmd.data == [] then [] else [E.RxData(cmd.data, {E.Final})]
  }

  /** Every T=0 command, in every order of events, with any number of NULL bytes at half times while no message is in
      flight: the sniffer reports nothing, or exactly header, data and status word with no flag; it has reported them
      iff the command is over; and then everybody waits for the next one, nothing being on its way.  The card behind the
      host is asked once, exactly what the reader sent, which the emulator has told the host. */
  lemma EveryCommand(y: Sys, cmd: Cmd, evs: seq<Event>)
    requires Start(y, cmd) && Undisturbed(y, cmd, evs)
    ensures var r := Run(y, cmd, evs);
      && r.s.reports == y.s.reports + (if Over(r) then [S.TpduReport(PacketOf(cmd), {})] else [])
      && (Over(r) ==> Idle(r) && r.sent == 5 + |cmd.data| && r.ac == Finished(y.ac, cmd))
      && (r.asked == [] || r.asked == [cmd.hdr + cmd.data]) && (Over(r) ==> r.asked != [])
      && (Over(r) ==> r.e.toHost == y.e.toHost + Messages(cmd))
      && (!Over(r) && r.sent > 0 ==> r.s.iso == S.InTpdu)
  {
    StartsAt(y, cmd);
    var q := AnyRun(y, y.s, y.ac, cmd, Header(0), evs, y.e.toHost);
    var r := Run(y, cmd, evs);
    SaidInPhase(r, y.s, y.ac, cmd, q);
    if q == Done {
      EndsIdle(r, y.s, y.ac, cmd);
    }
    AskedOnce(r, cmd, q);
  }

  /** What the sniffer has reported in a phase. */
  lemma SaidInPhase(y: Sys, s0: S.Sniff, last: H.Apdu, cmd: Cmd, p: Phase)
    requires At(y, s0, last, cmd, p)
    ensures p == Done <==> Over(y)
    ensures y.s.reports == s0.reports + (if p == Done then [S.TpduReport(PacketOf(cmd), {})] else [])
    ensures p != Done && y.sent > 0 ==> y.s.iso == S.InTpdu
  {
    assert s0.reports + [] == s0.reports;
  }

  lemma AskedOnce(y: Sys, cmd: Cmd, p: Phase)
    requires HostUpToDate(y, cmd) && AskedNow(y, cmd) == AskedAt(cmd, p)
    ensures y.asked == [] || y.asked == [cmd.hdr + cmd.data]
    ensures y.told == |y.e.toHost| ==> y.asked == AskedAt(cmd, p)
  {
  }

  /** Exactly: from the start of a command on, emulator, host and sniffer stay together in its phases iff half time is
      never reached while a message is in flight. */
  lemma EveryCommandIff(y: Sys, cmd: Cmd, evs: seq<Event>)
    requires Start(y, cmd)
    ensures Together(y, y.s, y.ac, cmd, evs) <==> Undisturbed(y, cmd, evs)
  {
    StartsAt(y, cmd);
    TogetherIff(y, y.s, y.ac, cmd, Header(0), evs);
  }

  // ---------------------------------------------------------------- sessions

  /** A command, and what happens during it. */
  datatype Turn = Turn(cmd: Cmd, evs: seq<Event>)

  /** The commands are valid one after the other; the host remembers the previous one. */
  predicate AllValid(turns: seq<Turn>, last: H.Apdu) {
    turns != [] ==> Valid(turns[0].cmd, last) && AllValid(turns[1..], Finished(last, turns[0].cmd))
  }

  /** Counted anew for each command. */
  function Next(y: Sys): Sys {
    y.(sent := 0, asked := [])
  }

  /** The reader starts with the next command once the one before is over. */
  ghost predicate Played(y: Sys, turns: seq<Turn>)
    requires R.Inv(y.e)
    decreases |turns|
  {
    turns != [] ==>
      var y0, t := Next(y), turns[0];
      && Undisturbed(y0, t.cmd, t.evs) && Over(Run(y0, t.cmd, t.evs))
      && Played(Run(y0, t.cmd, t.evs), turns[1..])
  }

  function RunAll(y: Sys, turns: seq<Turn>): Sys
    requires R.Inv(y.e)
    decreases |turns|
  {
    if turns == [] then y else RunAll(Run(Next(y), turns[0].cmd, turns[0].evs), turns[1..])
  }

  /** All that the card is asked. */
  function AllAsked(y: Sys, turns: seq<Turn>): seq<seq<byte>>
    requires R.Inv(y.e)
    decreases |turns|
  {
    if turns == [] then []
    else
      var y1 := Run(Next(y), turns[0].cmd, turns[0].evs);
      y1.asked + AllAsked(y1, turns[1..])
  }

  function Commands(turns: seq<Turn>): seq<seq<byte>> {
    if turns == [] then [] else [turns[0].cmd.hdr + turns[0].cmd.data] + Commands(turns[1..])
  }

  function Reports(turns: seq<Turn>): seq<S.Report> {
    if turns == [] then [] else [S.TpduReport(PacketOf(turns[0].cmd), {})] + Reports(turns[1..])
  }

  lemma ReportFirst(reports: seq<S.Report>, turns: seq<Turn>)
    requires turns != []
    ensures (reports + [S.TpduReport(PacketOf(turns[0].cmd), {})]) + Reports(turns[1..]) == reports + Reports(turns)
  {
    var first, rest := [S.TpduReport(PacketOf(turns[0].cmd), {})], Reports(turns[1..]);
    assert Reports(turns) == first + rest;
    assert (reports + first) + rest == reports + (first + rest);
  }

  /** Any number of commands: one report and one question to the card for each, in order, and everybody waits again. */
  lemma {:induction false} EverySession(y: Sys, turns: seq<Turn>)
    requires Idle(y) && AllValid(turns, y.ac) && Played(y, turns)
    ensures var r := RunAll(y, turns); Idle(r) && r.s.reports == y.s.reports + Reports(turns)
    ensures AllAsked(y, turns) == Commands(turns)
    decreases |turns|
  {
    if turns == [] {
      assert y.s.reports + [] == y.s.reports;
    } else {
      var y0, t := Next(y), turns[0];
      var y1 := Run(y0, t.cmd, t.evs);
      assert Start(y0, t.cmd);
      EveryCommand(y0, t.cmd, t.evs);
      EverySession(y1, turns[1..]);
      ReportFirst(y.s.reports, turns);
    }
  }

  /** A command of case 1 to 3 that the card refused with SW1 = 6C and that is repeated with another P3 keeps its case,
      whatever the profile says of the new header; any other command is of the case the profile says. */
  lemma RepeatedAfter6C(last: H.Apdu, cmd: Cmd, again: Cmd)
    requires Valid(cmd, last) && |again.hdr| == 5
    ensures var repeated := again.hdr[0] == cmd.hdr[0] && again.hdr[1] == cmd.hdr[1] && again.hdr[2] == cmd.hdr[2]
        && again.hdr[3] == cmd.hdr[3];
      H.KindOf(Finished(last, cmd), again.hdr, again.kind)
      == if cmd.answer.sw[0] == 0x6c && repeated && H.KindOf(last, cmd.hdr, cmd.kind) != 4
         then H.KindOf(last, cmd.hdr, cmd.kind) else again.kind
  {
    assert again.hdr[..4] == [again.hdr[0], again.hdr[1], again.hdr[2], again.hdr[3]];
    assert cmd.hdr[..4] == [cmd.hdr[0], cmd.hdr[1], cmd.hdr[2], cmd.hdr[3]];
  }

  // ---------------------------------------------------------------- progress

  /** How much of the command is still to come. */
  function ToDo(cmd: Cmd, p: Phase): nat
    requires PhaseOk(cmd, p)
  {
    var n := |DataOf(cmd)|;
    match p
    case Header(k) => n + 10 - k
    case Ack => n + 4
    case Answering(j) => n - j + 3
    case Receiving(j) => n - j + 3
    case Status => 2
    case HalfStatus => 1
    case Done => 0
  }

  /** Messages not yet at the emulator; the host answers one message by two at most. */
  function OnTheWay(y: Sys): nat
    requires y.told <= |y.e.toHost|
  {
    3 * (|y.e.toHost| - y.told) + |y.out|
  }

  /** An event that brings the command on. */
  function NextEvent(y: Sys, p: Phase): Event {
    if p.Header? || p.Receiving? then ReaderByte
    else if y.e.tx.Some? || y.e.queue != [] then TxReady
    else if y.out != [] then Delivery
    else HostReads
  }

  lemma NextEventHelps(y: Sys, s0: S.Sniff, last: H.Apdu, cmd: Cmd, p: Phase)
    requires At(y, s0, last, cmd, p) && p != Done
    ensures var ev := NextEvent(y, p); var y1, p1 := Step(y, cmd, ev), After(y, cmd, p, ev);
      && At(y1, s0, last, cmd, p1)
      && (ToDo(cmd, p1) < ToDo(cmd, p) || (p1 == p && OnTheWay(y1) < OnTheWay(y)))
  {
    var ev := NextEvent(y, p);
    AnyStep(y, s0, last, cmd, p, ev);
    if ev == ReaderByte {
      ReaderHelps(cmd, p);
    } else if ev == TxReady {
      assert y.e.uart == E.TxOn && E.NextMsg(y.e).Some?;
      assert AheadAt(cmd, p) != [];
      ByteHelps(cmd, p);
    } else {
      HostHelps(y, s0, last, cmd, p);
    }
  }

  lemma ReaderHelps(cmd: Cmd, p: Phase)
    requires PhaseOk(cmd, p) && (p.Header? || p.Receiving?)
    ensures PhaseOk(cmd, AfterReader(cmd, p)) && ToDo(cmd, AfterReader(cmd, p)) < ToDo(cmd, p)
  {
  }

  lemma ByteHelps(cmd: Cmd, p: Phase)
    requires PhaseOk(cmd, p) && !p.Header? && !p.Receiving? && p != Done
    ensures PhaseOk(cmd, AfterByte(cmd, p)) && ToDo(cmd, AfterByte(cmd, p)) < ToDo(cmd, p)
  {
  }

  lemma HostHelps(y: Sys, s0: S.Sniff, last: H.Apdu, cmd: Cmd, p: Phase)
    requires At(y, s0, last, cmd, p) && p != Done && NextEvent(y, p) in {Delivery, HostReads}
    ensures var y1 := Step(y, cmd, NextEvent(y, p));
      y1.told <= |y1.e.toHost| && OnTheWay(y1) < OnTheWay(y)
  {
    if y.out != [] {
      OneDelivered(y, s0, last, cmd, p);
    } else {
      SomethingTold(y, s0, last, cmd, p);
      OneRead(y, cmd);
    }
  }

  lemma OneDelivered(y: Sys, s0: S.Sniff, last: H.Apdu, cmd: Cmd, p: Phase)
    requires At(y, s0, last, cmd, p) && y.out != []
    ensures var y1 := Step(y, cmd, Delivery); y1.told <= |y1.e.toHost| && OnTheWay(y1) < OnTheWay(y)
  {
    assert y.out[0] in Ahead(y, cmd);
    NothingTold(y, s0, last, cmd, p, Delivery);
  }

  /** If no message is anywhere, the host has one to handle. */
  lemma SomethingTold(y: Sys, s0: S.Sniff, last: H.Apdu, cmd: Cmd, p: Phase)
    requires At(y, s0, last, cmd, p) && !p.Header? && !p.Receiving? && !p.Done?
    requires y.e.tx.None? && y.e.queue == [] && y.out == []
    ensures y.told < |y.e.toHost|
  {
    assert Ahead(y, cmd) == Settled(y, cmd).1;
  }

  /** The host answers by two messages at most. */
  lemma OneRead(y: Sys, cmd: Cmd)
    requires R.Inv(y.e) && HostUpToDate(y, cmd) && y.out == [] && y.told < |y.e.toHost|
    ensures var y1 := Step(y, cmd, HostReads);
      y1.e == y.e && y1.told <= |y1.e.toHost| && OnTheWay(y1) < OnTheWay(y)
  {
    assert HostMay(y, cmd);
  }

  lemma LastStep(y: Sys, cmd: Cmd, p: Phase)
    requires !p.Done?
    ensures After(y, cmd, p, NextEvent(y, p)).Done? ==> p.HalfStatus?
  {
  }

  /** A harmless event, and the point it leads to. */
  lemma Nearer(y: Sys, s0: S.Sniff, last: H.Apdu, cmd: Cmd, p: Phase) returns (ev: Event, y1: Sys, p1: Phase)
    requires At(y, s0, last, cmd, p) && !p.Done?
    ensures Harmless(y, ev) && y1 == Step(y, cmd, ev) && At(y1, s0, last, cmd, p1) && (p1.Done? ==> p.HalfStatus?)
    ensures y.told <= |y.e.toHost| && y1.told <= |y1.e.toHost| && PhaseOk(cmd, p) && PhaseOk(cmd, p1)
    ensures ToDo(cmd, p1) < ToDo(cmd, p) || (ToDo(cmd, p1) == ToDo(cmd, p) && OnTheWay(y1) < OnTheWay(y))
  {
    ev := NextEvent(y, p);
    NextEventHelps(y, s0, last, cmd, p);
    LastStep(y, cmd, p);
    y1, p1 := Step(y, cmd, ev), After(y, cmd, p, ev);
  }

  /** From every point of every run the command can be completed. */
  lemma {:induction false} CanFinish(y: Sys, s0: S.Sniff, last: H.Apdu, cmd: Cmd, p: Phase) returns (evs: seq<Event>)
    requires At(y, s0, last, cmd, p)
    ensures Leads(y, s0, last, cmd, evs, Done)
    decreases ToDo(cmd, p), OnTheWay(y)
  {
    if p.Done? {
      evs := [];
    } else {
      var ev, y1, p1 := Nearer(y, s0, last, cmd, p);
      var rest := CanFinish(y1, s0, last, cmd, p1);
      evs := [ev] + rest;
      LeadsFirst(y, s0, last, cmd, ev, rest, Done);
    }
  }

  /** An undisturbed run that ends in the phase. */
  ghost predicate Leads(y: Sys, s0: S.Sniff, last: H.Apdu, cmd: Cmd, evs: seq<Event>, p: Phase)
    requires R.Inv(y.e)
  {
    Undisturbed(y, cmd, evs) && At(Run(y, cmd, evs), s0, last, cmd, p)
  }

  lemma LeadsFirst(y: Sys, s0: S.Sniff, last: H.Apdu, cmd: Cmd, ev: Event, rest: seq<Event>, p: Phase)
    requires R.Inv(y.e) && R.Inv(Step(y, cmd, ev).e) && Harmless(y, ev)
    requires Leads(Step(y, cmd, ev), s0, last, cmd, rest, p)
    ensures Leads(y, s0, last, cmd, [ev] + rest, p)
  {
    OneMoreEvent(y, cmd, ev, rest);
  }

  lemma OneMoreEvent(y: Sys, cmd: Cmd, ev: Event, rest: seq<Event>)
    requires R.Inv(y.e) && R.Inv(Step(y, cmd, ev).e)
    ensures Run(y, cmd, [ev] + rest) == Run(Step(y, cmd, ev), cmd, rest)
    ensures Undisturbed(y, cmd, [ev] + rest) <==> Harmless(y, ev) && Undisturbed(Step(y, cmd, ev), cmd, rest)
  {
    assert ([ev] + rest)[1..] == rest;
  }

  /** No schedule leads into a dead end: whatever has happened, some further events complete the command. */
  lemma NoDeadEnd(y: Sys, cmd: Cmd, evs: seq<Event>) returns (more: seq<Event>)
    requires Start(y, cmd) && Undisturbed(y, cmd, evs)
    ensures var r := Run(y, cmd, evs);
      && Undisturbed(r, cmd, more) && Over(Run(r, cmd, more))
      && Run(r, cmd, more).s == S.Say(y.s, S.TpduReport(PacketOf(cmd), {}))
  {
    StartsAt(y, cmd);
    var q := AnyRun(y, y.s, y.ac, cmd, Header(0), evs, y.e.toHost);
    more := CanFinish(Run(y, cmd, evs), y.s, y.ac, cmd, q);
  }

  // ---------------------------------------------------------------- half time in flight can be reached

  /** A message stays in flight if the transmitter is slow: after some rounds half time is reached. */
  lemma {:induction false} SlowTransmitter(y: Sys, s0: S.Sniff, last: H.Apdu, cmd: Cmd, p: Phase)
    returns (evs: seq<Event>)
    requires At(y, s0, last, cmd, p) && (p.Answering? || p.HalfStatus?)
    ensures Undisturbed(y, cmd, evs) && At(Run(y, cmd, evs), s0, last, cmd, p) && Disturbs(Run(y, cmd, evs))
    decreases y.e.timer.remaining
  {
    evs := [];
    if !Disturbs(y) {
      var y1 := Step(y, cmd, TimerRound);
      TimerKeeps(y, s0, last, cmd, p);
      RoundCounts(y.e);
      var rest := SlowTransmitter(y1, s0, last, cmd, p);
      evs := [TimerRound] + rest;
      OneMoreEvent(y, cmd, TimerRound, rest);
    }
  }

  lemma RoundCounts(e: E.Emu)
    requires R.Inv(e) && e.iso == E.InTpdu && e.tpdu in {E.WaitPb, E.WaitTx} && e.uart == E.TxOn && !TellsHalf(e)
    ensures E.OnTimeout(e).timer.remaining < e.timer.remaining
  {
  }

  /** Every command can get to the point where the given phase with a message in flight is reached. */
  lemma {:induction false} ReachesFlight(y: Sys, s0: S.Sniff, last: H.Apdu, cmd: Cmd, p: Phase)
    returns (evs: seq<Event>, q: Phase)
    requires At(y, s0, last, cmd, p) && !p.Done?
    ensures Leads(y, s0, last, cmd, evs, q) && (q.Answering? || q.HalfStatus?)
    decreases ToDo(cmd, p), OnTheWay(y)
  {
    if p.Answering? || p.HalfStatus? {
      evs, q := [], p;
    } else {
      var ev, y1, p1 := Nearer(y, s0, last, cmd, p);
      var rest;
      rest, q := ReachesFlight(y1, s0, last, cmd, p1);
      evs := [ev] + rest;
      LeadsFirst(y, s0, last, cmd, ev, rest, q);
    }
  }

  /** From the start of every command some run, undisturbed so far, leads to a half time in flight; after it the
      parts are in no common phase. */
  lemma DisturbanceReached(y: Sys, cmd: Cmd) returns (evs: seq<Event>)
    requires Start(y, cmd)
    ensures Undisturbed(y, cmd, evs) && Disturbs(Run(y, cmd, evs))
    ensures !InPhase(Step(Run(y, cmd, evs), cmd, TimerRound), y.s, y.ac, cmd)
  {
    StartsAt(y, cmd);
    var first, q := ReachesFlight(y, y.s, y.ac, cmd, Header(0));
    var rest := SlowTransmitter(Run(y, cmd, first), y.s, y.ac, cmd, q);
    evs := first + rest;
    RunsInTwo(y, cmd, first, rest);
    TimerDisturbs(Run(y, cmd, evs), y.s, y.ac, cmd, q);
  }

  /** Such a run of an emulator that has just come up: the card answers two bytes, and the transmitter gets slow. */
  lemma DisturbanceExists() returns (y: Sys, cmd: Cmd, evs: seq<Event>)
    ensures Start(y, cmd) && DataOf(cmd) == [1, 2] && y.e.wt == E.INIT_WTIME
    ensures Undisturbed(y, cmd, evs) && Disturbs(Run(y, cmd, evs))
    ensures !InPhase(Step(Run(y, cmd, evs), cmd, TimerRound), y.s, y.ac, cmd)
  {
    var e := E.Init(true, false, true).(iso := E.WaitTpdu, uart := E.RxOn);
    var s := S.Sniff(S.WaitTpdu, S.Atr(S.TS, [], 0, 0, 0, {}, false, {}), S.Pps(PPSS, []), S.Tpdu(S.CLA, []),
                     S.Rate(10, 1, 9600, 372), []);
    y := Sys(e, s, 0, 0, H.NO_APDU, [], []);
    cmd := Cmd([0xa0, 0xc0, 0, 0, 2], 2, [], H.Answer([1, 2], [0x90, 0]));
    assert StatusByte(0x90) && !StatusByte(0xc0);
    evs := DisturbanceReached(y, cmd);
  }

  lemma {:induction false} RunsInTwo(y: Sys, cmd: Cmd, a: seq<Event>, b: seq<Event>)
    requires R.Inv(y.e)
    ensures Run(y, cmd, a + b) == Run(Run(y, cmd, a), cmd, b)
    ensures Undisturbed(y, cmd, a + b) <==> Undisturbed(y, cmd, a) && Undisturbed(Run(y, cmd, a), cmd, b)
    decreases |a|
  {
    if a == [] {
      assert a + b == b;
    } else {
      StepKeeps(y, cmd, a[0]);
      assert (a + b)[1..] == a[1..] + b;
      RunsInTwo(Step(y, cmd, a[0]), cmd, a[1..], b);
    }
  }
}
