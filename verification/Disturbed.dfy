/** Half time reached while a message is in flight: emulator, host and reader are not affected, and exactly when the
    sniffer still reports the command as it was. */
module Disturbed {
  import opened Iso7816
  import opened EndToEnd
  import E = EmuSpec
  import R = EmuRuns
  import S = SniffSpec
  import T = SniffTpdu
  import H = HostSpec

  // ---------------------------------------------------------------- all but the sniffer

  function Undeceived(y: Sys, s0: S.Sniff, cmd: Cmd, p: Phase): Sys
    requires |cmd.hdr| == 5 && |cmd.answer.sw| == 2
  {
    y.(s := SniffAt(s0, cmd, p))
  }

  /** Reader, emulator, host and card are in the phase; the sniffer may be anywhere. */
  ghost predicate Core(y: Sys, s0: S.Sniff, last: H.Apdu, cmd: Cmd, p: Phase) {
    Valid(cmd, last) && AtAsked(Undeceived(y, s0, cmd, p), s0, last, cmd, p)
  }

  /** What the emulator just put on the wire. */
  function Emitted(before: seq<E.Entry>, after: seq<E.Entry>): seq<byte> {
    if after != before && after != [] && after[|after| - 1].Sent? then [after[|after| - 1].b] else []
  }

  /** What an event puts on the wire. */
  function Wire(y: Sys, cmd: Cmd, ev: Event): (bytes: seq<byte>)
    requires R.Inv(y.e)
    ensures |bytes| <= 1
  {
    match ev
    case ReaderByte => if ReaderMay(y, cmd) then [(cmd.hdr + cmd.data)[y.sent]] else []
    case TxReady => Emitted(y.e.log, E.OnTxReady(y.e).log)
    case TimerRound => Emitted(y.e.log, E.OnTimeout(y.e).log)
    case _ => []
  }

  function Hear(s: S.Sniff, bytes: seq<byte>): S.Sniff {
    if bytes == [] then s else S.OnByte(s, bytes[0])
  }

  /** Only the sniffer depends on what the sniffer heard before. */
  lemma Blind(y: Sys, x: S.Sniff, cmd: Cmd, ev: Event)
    requires R.Inv(y.e)
    ensures var y1 := Step(y, cmd, ev);
      && y1.s == Hear(y.s, Wire(y, cmd, ev))
      && Step(y.(s := x), cmd, ev) == y1.(s := Hear(x, Wire(y, cmd, ev)))
  {
    match ev
    case ReaderByte =>
    case TxReady => BlindToEmu(y, x, E.OnTxReady(y.e));
    case TimerRound => BlindToEmu(y, x, E.OnTimeout(y.e));
    case HostReads =>
    case Delivery =>
  }

  lemma BlindToEmu(y: Sys, x: S.Sniff, e: E.Emu)
    ensures var w := Emitted(y.e.log, e.log);
      WithEmu(y, e).s == Hear(y.s, w) && WithEmu(y.(s := x), e) == WithEmu(y, e).(s := Hear(x, w))
  {
  }

  /** The byte that leads from a phase to the next one. */
  function Expected(cmd: Cmd, p: Phase): byte
    requires |cmd.hdr| == 5 && |cmd.answer.sw| == 2 && PhaseOk(cmd, p)
  {
    match p
    case Header(k) => cmd.hdr[k]
    case Ack => cmd.hdr[1]
    case Answering(j) => DataOf(cmd)[j]
    case Receiving(j) => cmd.data[j]
    case Status => cmd.answer.sw[0]
    case _ => cmd.answer.sw[1]
  }

  function Advance(cmd: Cmd, p: Phase): Phase {
    if p.Header? || p.Receiving? then AfterReader(cmd, p) else AfterByte(cmd, p)
  }

  predicate NullDue(y: Sys, ev: Event)
    requires R.Inv(y.e)
  {
    ev == TimerRound && TellsHalf(y.e)
  }

  /** The phase after any event, half times in flight included. */
  lemma CoreStep(y: Sys, s0: S.Sniff, last: H.Apdu, cmd: Cmd, p: Phase, ev: Event)
    requires Core(y, s0, last, cmd, p)
    ensures Core(Step(y, cmd, ev), s0, last, cmd, After(y, cmd, p, ev))
  {
    if Harmless(y, ev) {
      CoreHarmless(y, s0, last, cmd, p, ev);
    } else {
      CoreDisturbed(y, s0, last, cmd, p);
    }
  }

  lemma CoreHarmless(y: Sys, s0: S.Sniff, last: H.Apdu, cmd: Cmd, p: Phase, ev: Event)
    requires Core(y, s0, last, cmd, p) && Harmless(y, ev)
    ensures Core(Step(y, cmd, ev), s0, last, cmd, After(y, cmd, p, ev))
  {
    AskedKeeps(Undeceived(y, s0, cmd, p), s0, last, cmd, p, ev);
    SnifferAt(Step(Undeceived(y, s0, cmd, p), cmd, ev), s0, last, cmd, After(y, cmd, p, ev));
    SameStep(y, s0, cmd, p, After(y, cmd, p, ev), ev);
  }

  lemma SnifferAt(y: Sys, s0: S.Sniff, last: H.Apdu, cmd: Cmd, p: Phase)
    requires Valid(cmd, last) && AtAsked(y, s0, last, cmd, p)
    ensures y.s == SniffAt(s0, cmd, p)
  {
  }

  lemma SameStep(y: Sys, s0: S.Sniff, cmd: Cmd, p: Phase, q: Phase, ev: Event)
    requires R.Inv(y.e) && |cmd.hdr| == 5 && |cmd.answer.sw| == 2
    requires Step(Undeceived(y, s0, cmd, p), cmd, ev).s == SniffAt(s0, cmd, q)
    ensures Undeceived(Step(y, cmd, ev), s0, cmd, q) == Step(Undeceived(y, s0, cmd, p), cmd, ev)
  {
    Blind(y, SniffAt(s0, cmd, p), cmd, ev);
  }

  lemma CoreDisturbed(y: Sys, s0: S.Sniff, last: H.Apdu, cmd: Cmd, p: Phase)
    requires Core(y, s0, last, cmd, p) && Disturbs(y)
    ensures Core(Step(y, cmd, TimerRound), s0, last, cmd, p)
  {
    var x, x1 := Undeceived(y, s0, cmd, p), Undeceived(Step(y, cmd, TimerRound), s0, cmd, p);
    R.TimeoutKeeps(y.e);
    HalfTimeHeard(y, cmd);
    OnlyTimer(x, x1, s0, last, cmd, p);
  }

  lemma OnlyTimer(y: Sys, y1: Sys, s0: S.Sniff, last: H.Apdu, cmd: Cmd, p: Phase)
    requires AtAsked(y, s0, last, cmd, p) && R.Inv(y1.e)
    requires y1 == y.(e := y1.e) && y1.e == y.e.(timer := y1.e.timer, log := y1.e.log)
    ensures AtAsked(y1, s0, last, cmd, p)
  {
    SameAhead(y, y1, cmd);
  }

  lemma SameAhead(y: Sys, y1: Sys, cmd: Cmd)
    requires HostUpToDate(y, cmd) && y1 == y.(e := y1.e)
    requires y1.e.toHost == y.e.toHost && y1.e.tx == y.e.tx && y1.e.queue == y.e.queue
    ensures HostUpToDate(y1, cmd) && Ahead(y1, cmd) == Ahead(y, cmd) && Settled(y1, cmd) == Settled(y, cmd)
    ensures AskedNow(y1, cmd) == AskedNow(y, cmd)
  {
  }

  /** What comes over the wire with an event: nothing, the byte that leads to the next phase, or a NULL byte. */
  lemma WireIs(y: Sys, s0: S.Sniff, last: H.Apdu, cmd: Cmd, p: Phase, ev: Event)
    requires Core(y, s0, last, cmd, p)
    ensures var w, q := Wire(y, cmd, ev), After(y, cmd, p, ev);
      if NullDue(y, ev) then w == [0x60] && q == p && (p in {Ack, Status, HalfStatus} || p.Answering?)
      else (w == [] && q == p) || (p != Done && w == [Expected(cmd, p)] && q == Advance(cmd, p))
  {
    var x := Undeceived(y, s0, cmd, p);
    if ev == ReaderByte {
      WireOfReader(x, s0, last, cmd, p);
    } else if ev == TxReady {
      WireOfTx(x, s0, last, cmd, p);
    } else if ev == TimerRound {
      WireOfTimer(x, s0, last, cmd, p);
    }
  }

  lemma WireOfReader(y: Sys, s0: S.Sniff, last: H.Apdu, cmd: Cmd, p: Phase)
    requires At(y, s0, last, cmd, p)
    ensures Wire(y, cmd, ReaderByte) == if p.Header? || p.Receiving? then [Expected(cmd, p)] else []
  {
    if p.Header? {
      assert (cmd.hdr + cmd.data)[p.k] == cmd.hdr[p.k];
    } else if p.Receiving? {
      assert (cmd.hdr + cmd.data)[5 + p.j] == cmd.data[p.j];
    }
  }

  lemma WireOfTx(y: Sys, s0: S.Sniff, last: H.Apdu, cmd: Cmd, p: Phase)
    requires At(y, s0, last, cmd, p)
    ensures var w, q := Wire(y, cmd, TxReady), After(y, cmd, p, TxReady);
      (w == [] && q == p) || (p != Done && w == [Expected(cmd, p)] && q == Advance(cmd, p))
  {
    if y.e.uart == E.TxOn && E.NextMsg(y.e).Some? {
      var m := E.NextMsg(y.e).value;
      FirstAhead(y, cmd);
      AheadFollows(cmd, last, p);
      EmuFollows(y.e, cmd, last, p, m);
      EmittedIs(y.e.log, m.data[0]);
      FirstByte(cmd, last, p);
    } else {
      NothingToSend(y.e);
    }
  }

  lemma EmittedIs(log: seq<E.Entry>, b: byte)
    ensures Emitted(log, log + [E.Sent(b, E.FromHost)]) == [b]
  {
  }

  lemma FirstByte(cmd: Cmd, last: H.Apdu, p: Phase)
    requires Valid(cmd, last) && PhaseOk(cmd, p) && AheadAt(cmd, p) != [] && AheadAt(cmd, p)[0].data != []
    ensures AheadAt(cmd, p)[0].data[0] == Expected(cmd, p)
  {
  }

  lemma WireOfTimer(y: Sys, s0: S.Sniff, last: H.Apdu, cmd: Cmd, p: Phase)
    requires At(y, s0, last, cmd, p)
    ensures Wire(y, cmd, TimerRound) == if TellsHalf(y.e) then [0x60] else []
    ensures TellsHalf(y.e) ==> p in {Ack, Status, HalfStatus} || p.Answering?
  {
    if p.Header? || p.Receiving? || p.Done? {
      RoundIsOff(y, s0, last, cmd, p);
    } else {
      RoundEmits(y.e);
    }
  }

  lemma RoundEmits(e: E.Emu)
    requires R.Inv(e) && e.iso == E.InTpdu && e.tpdu in {E.WaitPb, E.WaitTx}
    ensures Emitted(e.log, E.OnTimeout(e).log) == if TellsHalf(e) then [0x60] else []
  {
    RoundIs(e);
  }

  lemma {:induction false} CoreRun(y: Sys, s0: S.Sniff, last: H.Apdu, cmd: Cmd, p: Phase, evs: seq<Event>)
    returns (q: Phase)
    requires Core(y, s0, last, cmd, p)
    ensures Core(Run(y, cmd, evs), s0, last, cmd, q)
    decreases |evs|
  {
    q := p;
    if evs != [] {
      CoreStep(y, s0, last, cmd, p, evs[0]);
      q := CoreRun(Step(y, cmd, evs[0]), s0, last, cmd, After(y, cmd, p, evs[0]), evs[1..]);
    }
  }

  lemma CoreStart(y: Sys, cmd: Cmd)
    requires Start(y, cmd)
    ensures Core(y, y.s, y.ac, cmd, Header(0))
  {
    StartsAt(y, cmd);
    assert Undeceived(y, y.s, cmd, Header(0)) == y;
  }

  lemma CoreOver(y: Sys, s0: S.Sniff, last: H.Apdu, cmd: Cmd, p: Phase)
    requires Core(y, s0, last, cmd, p) && Over(y)
    ensures p == Done && Idle(y.(s := S.Say(s0, S.TpduReport(PacketOf(cmd), {})))) && y.ac == Finished(last, cmd)
    ensures y.asked == [cmd.hdr + cmd.data] && y.sent == 5 + |cmd.data|
  {
    var x := Undeceived(y, s0, cmd, p);
    EndsIdle(x, s0, last, cmd);
    AskedOnce(x, cmd, p);
  }

  /** Every command, in every order of events, with half times at any point: when it is over, the emulator waits for the
      next one, the host has handled everything, nothing is on its way, and the card has been asked once. */
  lemma NobodyElseDisturbed(y: Sys, cmd: Cmd, evs: seq<Event>)
    requires Start(y, cmd)
    ensures var r := Run(y, cmd, evs); Over(r) ==>
      && Idle(r.(s := y.s)) && r.ac == Finished(y.ac, cmd)
      && r.asked == [cmd.hdr + cmd.data] && r.sent == 5 + |cmd.data|
  {
    CoreStart(y, cmd);
    var q := CoreRun(y, y.s, y.ac, cmd, Header(0), evs);
    if Over(Run(y, cmd, evs)) {
      CoreOver(Run(y, cmd, evs), y.s, y.ac, cmd, q);
    }
  }

  // ---------------------------------------------------------------- the sniffer, still or again with the others

  predicate AllNull(d: seq<byte>) {
    forall i :: 0 <= i < |d| ==> d[i] == 0x60
  }

  /** The sniffer, in phase `q`, is with the others, or ahead by NULL bytes it took for data that are no different. */
  predicate Near(cmd: Cmd, p: Phase, q: Phase) {
    q == p
    || (p.Answering? && p.j < |DataOf(cmd)| && AllNull(DataOf(cmd)[p.j..])
        && (q == Status || (q.Answering? && p.j < q.j)))
  }

  ghost predicate Follows(s: S.Sniff, s0: S.Sniff, cmd: Cmd, p: Phase)
    requires |cmd.hdr| == 5 && |cmd.answer.sw| == 2
  {
    exists q :: PhaseOk(cmd, q) && Near(cmd, p, q) && s == SniffAt(s0, cmd, q)
  }

  /** The byte of the next phase leads the sniffer there. */
  lemma SniffMoves(s0: S.Sniff, cmd: Cmd, last: H.Apdu, p: Phase)
    requires SniffReady(s0) && Valid(cmd, last) && PhaseOk(cmd, p) && p != Done
    ensures PhaseOk(cmd, Advance(cmd, p))
    ensures S.OnByte(SniffAt(s0, cmd, p), Expected(cmd, p)) == SniffAt(s0, cmd, Advance(cmd, p))
  {
    if p.Header? {
      SniffHeader(s0, cmd, last, p.k);
    } else if p.Receiving? {
      SniffData(s0, cmd, last, p.j);
    } else {
      SniffFollows(s0, cmd, last, p);
    }
  }

  lemma NearMoves(s0: S.Sniff, cmd: Cmd, last: H.Apdu, p: Phase, q: Phase)
    requires SniffReady(s0) && Valid(cmd, last) && PhaseOk(cmd, p) && PhaseOk(cmd, q) && Near(cmd, p, q) && p != Done
    ensures Follows(S.OnByte(SniffAt(s0, cmd, q), Expected(cmd, p)), s0, cmd, Advance(cmd, p))
  {
    if q == p {
      SniffMoves(s0, cmd, last, p);
      assert Near(cmd, Advance(cmd, p), Advance(cmd, p));
    } else {
      NullTail(DataOf(cmd), p.j);
      NearNull(s0, cmd, last, p, q);
      NearAdvances(cmd, p, NullPhase(cmd, q));
    }
  }

  lemma NullTail(d: seq<byte>, j: nat)
    requires j < |d| && AllNull(d[j..])
    ensures AllNull(d[j + 1..]) && forall i :: j <= i < |d| ==> d[i] == 0x60
  {
    assert forall i :: j <= i < |d| ==> d[i] == d[j..][i - j];
    var tail := d[j + 1..];
    forall i | 0 <= i < |tail| ensures tail[i] == 0x60 {
      assert tail[i] == d[j..][i + 1];
    }
  }

  /** Where a NULL byte takes the sniffer while it does no harm. */
  function NullPhase(cmd: Cmd, q: Phase): Phase {
    if q.Answering? then AfterByte(cmd, q) else q
  }

  /** A NULL byte is ignored, or taken for data that are no different. */
  lemma NearNull(s0: S.Sniff, cmd: Cmd, last: H.Apdu, p: Phase, q: Phase)
    requires SniffReady(s0) && Valid(cmd, last) && PhaseOk(cmd, p) && PhaseOk(cmd, q) && Near(cmd, p, q)
    requires p in {Ack, Status} || (p.Answering? && AllNull(DataOf(cmd)[p.j..]))
    ensures PhaseOk(cmd, NullPhase(cmd, q)) && Near(cmd, p, NullPhase(cmd, q))
    ensures S.OnByte(SniffAt(s0, cmd, q), 0x60) == SniffAt(s0, cmd, NullPhase(cmd, q))
    ensures q.Answering? ==> NullPhase(cmd, q) != q
  {
    if q.Answering? {
      NullTail(DataOf(cmd), p.j);
      SniffMoves(s0, cmd, last, q);
    } else {
      NullIgnored(s0, cmd, last, q);
    }
  }

  lemma NearAdvances(cmd: Cmd, p: Phase, q: Phase)
    requires PhaseOk(cmd, p) && PhaseOk(cmd, q) && Near(cmd, p, q) && p.Answering?
    requires AllNull(DataOf(cmd)[p.j..]) && (q.Answering? ==> p.j + 1 < q.j)
    requires q.Answering? || q == Status
    ensures Near(cmd, Advance(cmd, p), q)
  {
    NullTail(DataOf(cmd), p.j);
  }

  // ---------------------------------------------------------------- the sniffer, lost for good

  /** The report of the command as it was. */
  function Right(cmd: Cmd): S.Report {
    S.TpduReport(PacketOf(cmd), {})
  }

  /** It is the first report since `s0`. */
  predicate ReportedRight(s: S.Sniff, s0: S.Sniff, cmd: Cmd) {
    |s.reports| > |s0.reports| && s.reports[|s0.reports|] == Right(cmd)
  }

  predicate Differs(got: seq<byte>, packet: seq<byte>) {
    exists i :: 0 <= i < |got| && i < |packet| && got[i] != packet[i]
  }

  /** A wrong byte is in the packet, or the first report is another one. */
  predicate Off(s: S.Sniff, s0: S.Sniff, cmd: Cmd) {
    if |s.reports| == |s0.reports| then s.iso == S.InTpdu && !s.atr.convert && Differs(s.tpdu.got, PacketOf(cmd))
    else |s.reports| > |s0.reports| && s.reports[|s0.reports|] != Right(cmd)
  }

  /** Reports are never taken back, and before the sniffer waits for a command there is one. */
  predicate Grown(s: S.Sniff, s1: S.Sniff) {
    && |s.reports| <= |s1.reports| && s1.reports[..|s.reports|] == s.reports
    && (s1.iso == S.WaitTpdu ==> |s1.reports| > |s.reports|)
  }

  lemma SettleGrows(s: S.Sniff, rank: nat)
    requires s.iso == S.InAtr
    ensures Grown(s, S.Settle(s, rank))
  {
  }

  lemma AtrGrows(s: S.Sniff, b: byte)
    requires s.iso == S.InAtr && |s.atr.got| < S.MAX_ATR_SIZE
    ensures Grown(s, S.AtrByte(s, b))
  {
    var s1 := s.(atr := s.atr.(got := s.atr.got + [b]));
    match s1.atr.state
    case TS =>
    case T0 => FormatGrows(s1, b);
    case TD => FormatGrows(s1, b);
    case TA => SettleGrows(s1, 1);
    case TB => SettleGrows(s1, 2);
    case TC => TcGrows(s1, b);
    case Hist => HistGrows(s1);
    case TCK => assert Grown(s1, S.TckByte(s1));
  }

  lemma FormatGrows(s: S.Sniff, b: byte)
    requires s.iso == S.InAtr
    ensures Grown(s, S.FormatByte(s, b))
  {
    var a := if s.atr.state == S.T0 then s.atr.(hist := Low(b))
      else s.atr.(protocols := s.atr.protocols + {b & 0x0f});
    SettleGrows(s.(atr := a.(y := b & 0xf0, group := a.group + 1)), 0);
  }

  lemma TcGrows(s: S.Sniff, b: byte)
    requires s.iso == S.InAtr
    ensures Grown(s, S.TcByte(s, b))
  {
    var wi := if b == 0 then DEFAULT_WI else b as int;
    SettleGrows(if s.atr.group == 2 then s.(rate := S.UpdateWt(s.rate, wi, 0)) else s, 3);
  }

  lemma HistGrows(s: S.Sniff)
    requires s.iso == S.InAtr
    ensures Grown(s, S.HistByte(s))
  {
    SettleGrows(s.(atr := s.atr.(hist := if s.atr.hist > 0 then s.atr.hist - 1 else 0)), 4);
  }

  lemma PpsGrows(s: S.Sniff, b: byte)
    requires s.iso in {S.InPpsReq, S.InPpsRsp}
    ensures Grown(s, S.PpsByte(s, b))
  {
  }

  /** A byte of a TPDU is in the packet if it is recorded at all, and the packet is what is reported. */
  lemma TpduGrows(s: S.Sniff, b: byte)
    requires s.iso == S.InTpdu
    ensures var s1 := S.TpduByte(s, b);
      && Grown(s, s1)
      && (if |s1.reports| == |s.reports| then
            && s1.iso == S.InTpdu && s1.atr == s.atr && |s.tpdu.got| <= |s1.tpdu.got|
            && s1.tpdu.got[..|s.tpdu.got|] == s.tpdu.got
          else
            && var r := s1.reports[|s.reports|];
            && r.TpduReport? && |s.tpdu.got| <= |r.data| && r.data[..|s.tpdu.got|] == s.tpdu.got)
  {
  }

  lemma SaysMore(s: S.Sniff, raw: byte)
    ensures Grown(s, S.OnByte(s, raw))
  {
    var b := if s.atr.convert then S.Convert(raw) else raw;
    match s.iso
    case Reset =>
    case WaitAtr => AtrGrows(S.Enter(s, S.InAtr), b);
    case InAtr => if |s.atr.got| < S.MAX_ATR_SIZE { AtrGrows(s, b); }
    case WaitTpdu =>
      PpsGrows(S.Enter(s, S.InPpsReq), b);
      TpduGrows(S.Enter(s, S.InTpdu), b);
    case WaitPpsRsp => PpsGrows(S.Enter(s, S.InPpsRsp), b);
    case InTpdu => TpduGrows(s, b);
    case InPpsReq => PpsGrows(s, b);
    case InPpsRsp => PpsGrows(s, b);
  }

  lemma OffStays(s: S.Sniff, s0: S.Sniff, cmd: Cmd, b: byte)
    requires Off(s, s0, cmd)
    ensures Off(S.OnByte(s, b), s0, cmd)
  {
    SaysMore(s, b);
    if |s.reports| == |s0.reports| {
      TpduGrows(s, b);
    }
  }

  /** It took NULL bytes for data and is ahead by them, and a byte that differs is still to come. */
  predicate Misled(s: S.Sniff, s0: S.Sniff, cmd: Cmd, p: Phase)
    requires |cmd.hdr| == 5 && |cmd.answer.sw| == 2
  {
    && p.Answering?
    && var d, i := DataOf(cmd), |s.tpdu.got| - 5;
    && p.j < i < |d| && s == SniffAt(s0, cmd, Answering(i))
    && (forall k :: p.j <= k < i ==> d[k] == 0x60) && !AllNull(d[i..])
  }

  predicate Lost(s: S.Sniff, s0: S.Sniff, cmd: Cmd, p: Phase)
    requires |cmd.hdr| == 5 && |cmd.answer.sw| == 2
  {
    Off(s, s0, cmd) || Misled(s, s0, cmd, p)
  }

  /** A NULL byte taken for the data byte `i`. */
  lemma NullTaken(s0: S.Sniff, cmd: Cmd, last: H.Apdu, i: nat)
    requires SniffReady(s0) && Valid(cmd, last) && cmd.data == [] && i < |DataOf(cmd)| && !AllNull(DataOf(cmd)[i..])
    ensures var d, s1 := DataOf(cmd), S.OnByte(SniffAt(s0, cmd, Answering(i)), 0x60);
      if d[i] == 0x60 then i + 1 < |d| && !AllNull(d[i + 1..]) && s1 == SniffAt(s0, cmd, Answering(i + 1))
      else Off(s1, s0, cmd)
  {
    var d := DataOf(cmd);
    if d[i] == 0x60 {
      SniffMoves(s0, cmd, last, Answering(i));
      assert d[i..] == [d[i]] + d[i + 1..];
    } else {
      WrongByte(s0, cmd, last, i);
    }
  }

  lemma WrongByte(s0: S.Sniff, cmd: Cmd, last: H.Apdu, i: nat)
    requires SniffReady(s0) && Valid(cmd, last) && i < |DataOf(cmd)| && DataOf(cmd)[i] != 0x60
    requires cmd.data == []
    ensures Off(S.OnByte(SniffAt(s0, cmd, Answering(i)), 0x60), s0, cmd)
  {
    var s := SniffAt(s0, cmd, Answering(i));
    var s1 := S.OnByte(s, 0x60);
    assert s1.tpdu.got == s.tpdu.got + [0x60];
    assert s1.tpdu.got[5 + i] == 0x60 && PacketOf(cmd)[5 + i] == DataOf(cmd)[i];
  }

  /** The next byte of the emulator is a NULL byte as well for the sniffer. */
  lemma MisledNull(s: S.Sniff, s0: S.Sniff, cmd: Cmd, last: H.Apdu, p: Phase)
    requires SniffReady(s0) && Valid(cmd, last) && PhaseOk(cmd, p) && Misled(s, s0, cmd, p)
    ensures Expected(cmd, p) == 0x60
    ensures Lost(S.OnByte(s, 0x60), s0, cmd, p) && Lost(S.OnByte(s, 0x60), s0, cmd, Advance(cmd, p))
  {
    var d, i := DataOf(cmd), |s.tpdu.got| - 5;
    NullTaken(s0, cmd, last, i);
    if d[i] == 0x60 {
      MisledAt(s0, cmd, p, i + 1);
      MisledAt(s0, cmd, Answering(p.j + 1), i + 1);
    }
    assert Advance(cmd, p) == Answering(p.j + 1);
  }

  lemma MisledAt(s0: S.Sniff, cmd: Cmd, p: Phase, i: nat)
    requires |cmd.hdr| == 5 && |cmd.answer.sw| == 2 && p.Answering? && p.j < i < |DataOf(cmd)|
    requires (forall k :: p.j <= k < i ==> DataOf(cmd)[k] == 0x60) && !AllNull(DataOf(cmd)[i..])
    ensures Misled(SniffAt(s0, cmd, Answering(i)), s0, cmd, p)
  {
    assert |SniffAt(s0, cmd, Answering(i)).tpdu.got| == 5 + i;
  }

  /** Whatever happens, the sniffer stays lost. */
  lemma LostStays(y: Sys, s0: S.Sniff, last: H.Apdu, cmd: Cmd, p: Phase, ev: Event)
    requires Core(y, s0, last, cmd, p) && Lost(y.s, s0, cmd, p)
    ensures Lost(Step(y, cmd, ev).s, s0, cmd, After(y, cmd, p, ev))
  {
    WireIs(y, s0, last, cmd, p, ev);
    Blind(y, y.s, cmd, ev);
    if Off(y.s, s0, cmd) {
      if Wire(y, cmd, ev) != [] {
        OffStays(y.s, s0, cmd, Wire(y, cmd, ev)[0]);
      }
    } else {
      MisledNull(y.s, s0, cmd, last, p);
    }
  }

  lemma {:induction false} LostRun(y: Sys, s0: S.Sniff, last: H.Apdu, cmd: Cmd, p: Phase, evs: seq<Event>)
    returns (q: Phase)
    requires Core(y, s0, last, cmd, p) && Lost(y.s, s0, cmd, p)
    ensures Core(Run(y, cmd, evs), s0, last, cmd, q) && Lost(Run(y, cmd, evs).s, s0, cmd, q)
    decreases |evs|
  {
    q := p;
    if evs != [] {
      CoreStep(y, s0, last, cmd, p, evs[0]);
      LostStays(y, s0, last, cmd, p, evs[0]);
      q := LostRun(Step(y, cmd, evs[0]), s0, last, cmd, After(y, cmd, p, evs[0]), evs[1..]);
    }
  }

  // ---------------------------------------------------------------- which half times do harm

  /** All that is still to come of the message in flight are NULL bytes. */
  predicate Tolerable(y: Sys) {
    y.e.tx.Some? && AllNull(y.e.tx.value.data)
  }

  /** The event does not make the report wrong. */
  predicate Passes(y: Sys, ev: Event)
    requires R.Inv(y.e)
  {
    Harmless(y, ev) || Tolerable(y)
  }

  /** Nor does it bring the sniffer out of step with the next command. */
  predicate Spares(y: Sys, ev: Event)
    requires R.Inv(y.e)
  {
    Harmless(y, ev) || (Tolerable(y) && E.Final !in y.e.tx.value.flags)
  }

  /** What is in flight. */
  lemma InFlight(y: Sys, s0: S.Sniff, last: H.Apdu, cmd: Cmd, p: Phase)
    requires Core(y, s0, last, cmd, p) && Disturbs(y)
    ensures (p.Answering? && y.e.tx.value == E.TxMsg(DataOf(cmd)[p.j..], {E.PbAndTx}))
      || (p == HalfStatus && y.e.tx.value == E.TxMsg([cmd.answer.sw[1]], {E.PbAndTx, E.Final}))
  {
    var x := Undeceived(y, s0, cmd, p);
    assert Ahead(x, cmd)[0] == y.e.tx.value;
    assert AheadAt(cmd, p)[0] == y.e.tx.value;
  }

  lemma FollowsStep(y: Sys, s0: S.Sniff, last: H.Apdu, cmd: Cmd, p: Phase, ev: Event)
    requires Core(y, s0, last, cmd, p) && Follows(y.s, s0, cmd, p) && Spares(y, ev)
    ensures Follows(Step(y, cmd, ev).s, s0, cmd, After(y, cmd, p, ev))
  {
    var q :| PhaseOk(cmd, q) && Near(cmd, p, q) && y.s == SniffAt(s0, cmd, q);
    WireIs(y, s0, last, cmd, p, ev);
    Blind(y, y.s, cmd, ev);
    if NullDue(y, ev) {
      if !Harmless(y, ev) {
        InFlight(y, s0, last, cmd, p);
      }
      assert Undeceived(y, s0, cmd, p).e == y.e;
      NearNull(s0, cmd, last, p, q);
    } else if Wire(y, cmd, ev) != [] {
      NearMoves(s0, cmd, last, p, q);
    }
  }

  /** A NULL byte in the place of SW2 */
  lemma NullAsSw2(s0: S.Sniff, cmd: Cmd, last: H.Apdu)
    requires SniffReady(s0) && Valid(cmd, last)
    ensures var s1 := S.OnByte(SniffAt(s0, cmd, HalfStatus), 0x60);
      && |s1.reports| > |s0.reports|
      && (if cmd.answer.sw[1] == 0x60 then ReportedRight(s1, s0, cmd) else Off(s1, s0, cmd))
  {
    var h, d, sw := cmd.hdr, DataOf(cmd), cmd.answer.sw;
    NullInFlight(s0, cmd, last, HalfStatus);
    assert (h + d + [sw[0], 0x60])[5 + |d| + 1] == 0x60 && PacketOf(cmd)[5 + |d| + 1] == sw[1];
    if sw[1] == 0x60 {
      assert sw == [sw[0], 0x60];
    }
  }

  // ---------------------------------------------------------------- the report

  /** The report is out and right, though the emulator may still be at the last byte. */
  predicate Told(s: S.Sniff, s0: S.Sniff, cmd: Cmd, p: Phase)
    requires |cmd.answer.sw| == 2
  {
    ReportedRight(s, s0, cmd) && (p == Done || (p == HalfStatus && cmd.answer.sw[1] == 0x60))
  }

  ghost predicate RightSoFar(s: S.Sniff, s0: S.Sniff, cmd: Cmd, p: Phase)
    requires |cmd.hdr| == 5 && |cmd.answer.sw| == 2
  {
    Follows(s, s0, cmd, p) || Told(s, s0, cmd, p)
  }

  lemma ToldStays(y: Sys, s0: S.Sniff, last: H.Apdu, cmd: Cmd, p: Phase, ev: Event)
    requires Core(y, s0, last, cmd, p) && Told(y.s, s0, cmd, p)
    ensures Told(Step(y, cmd, ev).s, s0, cmd, After(y, cmd, p, ev))
  {
    WireIs(y, s0, last, cmd, p, ev);
    Blind(y, y.s, cmd, ev);
    if Wire(y, cmd, ev) != [] {
      SaysMore(y.s, Wire(y, cmd, ev)[0]);
    }
  }

  /** A half time in flight: the sniffer, if it is with the others, hears a NULL byte in the place of another one. */
  lemma NullHeard(y: Sys, s0: S.Sniff, last: H.Apdu, cmd: Cmd, p: Phase)
    requires Core(y, s0, last, cmd, p) && Disturbs(y)
    ensures Step(y, cmd, TimerRound).s == S.OnByte(y.s, 0x60)
    ensures SniffReady(s0) && PhaseOk(cmd, p)
    ensures if p == HalfStatus then Tolerable(y) <==> cmd.answer.sw[1] == 0x60
      else p.Answering? && (Tolerable(y) <==> AllNull(DataOf(cmd)[p.j..])) && E.Final !in y.e.tx.value.flags
    ensures Follows(y.s, s0, cmd, p) && (p == HalfStatus || !Tolerable(y)) ==> y.s == SniffAt(s0, cmd, p)
  {
    TolerableIs(y, s0, last, cmd, p);
    WireIs(y, s0, last, cmd, p, TimerRound);
    Blind(y, y.s, cmd, TimerRound);
  }

  lemma TolerableIs(y: Sys, s0: S.Sniff, last: H.Apdu, cmd: Cmd, p: Phase)
    requires Core(y, s0, last, cmd, p) && Disturbs(y)
    ensures if p == HalfStatus then Tolerable(y) <==> cmd.answer.sw[1] == 0x60
      else p.Answering? && (Tolerable(y) <==> AllNull(DataOf(cmd)[p.j..])) && E.Final !in y.e.tx.value.flags
  {
    InFlight(y, s0, last, cmd, p);
    var sw2 := cmd.answer.sw[1];
    assert AllNull([sw2]) <==> sw2 == 0x60 by {
      assert [sw2][0] == sw2;
    }
  }

  lemma KeepsRight(y: Sys, s0: S.Sniff, last: H.Apdu, cmd: Cmd, p: Phase, ev: Event)
    requires Core(y, s0, last, cmd, p) && RightSoFar(y.s, s0, cmd, p) && Passes(y, ev)
    ensures RightSoFar(Step(y, cmd, ev).s, s0, cmd, After(y, cmd, p, ev))
  {
    if Told(y.s, s0, cmd, p) {
      ToldStays(y, s0, last, cmd, p, ev);
    } else if Spares(y, ev) {
      FollowsStep(y, s0, last, cmd, p, ev);
    } else {
      NullHeard(y, s0, last, cmd, p);
      NullAsSw2(s0, cmd, last);
    }
  }

  lemma BrokenBy(s: S.Sniff, s0: S.Sniff, last: H.Apdu, cmd: Cmd, p: Phase)
    requires SniffReady(s0) && Valid(cmd, last) && PhaseOk(cmd, p) && s == SniffAt(s0, cmd, p)
    requires if p == HalfStatus then cmd.answer.sw[1] != 0x60 else p.Answering? && !AllNull(DataOf(cmd)[p.j..])
    ensures Lost(S.OnByte(s, 0x60), s0, cmd, p)
  {
    if p == HalfStatus {
      NullAsSw2(s0, cmd, last);
    } else {
      NullTaken(s0, cmd, last, p.j);
      if DataOf(cmd)[p.j] == 0x60 {
        MisledAt(s0, cmd, p, p.j + 1);
      }
    }
  }

  lemma BreaksRight(y: Sys, s0: S.Sniff, last: H.Apdu, cmd: Cmd, p: Phase, ev: Event)
    requires Core(y, s0, last, cmd, p) && RightSoFar(y.s, s0, cmd, p) && !Passes(y, ev)
    ensures Lost(Step(y, cmd, ev).s, s0, cmd, After(y, cmd, p, ev))
  {
    NullHeard(y, s0, last, cmd, p);
    assert !Told(y.s, s0, cmd, p);
    BrokenBy(y.s, s0, last, cmd, p);
  }

  predicate AllPass(y: Sys, cmd: Cmd, evs: seq<Event>)
    requires R.Inv(y.e)
    decreases |evs|
  {
    evs != [] ==>
      Passes(y, evs[0]) && (StepKeeps(y, cmd, evs[0]); AllPass(Step(y, cmd, evs[0]), cmd, evs[1..]))
  }

  lemma {:induction false} RightRun(y: Sys, s0: S.Sniff, last: H.Apdu, cmd: Cmd, p: Phase, evs: seq<Event>)
    returns (q: Phase)
    requires Core(y, s0, last, cmd, p) && RightSoFar(y.s, s0, cmd, p)
    ensures var r := Run(y, cmd, evs);
      && Core(r, s0, last, cmd, q)
      && (if AllPass(y, cmd, evs) then RightSoFar(r.s, s0, cmd, q) else Lost(r.s, s0, cmd, q))
    decreases |evs|
  {
    q := p;
    if evs != [] {
      var y1, p1 := Step(y, cmd, evs[0]), After(y, cmd, p, evs[0]);
      CoreStep(y, s0, last, cmd, p, evs[0]);
      if Passes(y, evs[0]) {
        KeepsRight(y, s0, last, cmd, p, evs[0]);
        q := RightRun(y1, s0, last, cmd, p1, evs[1..]);
      } else {
        BreaksRight(y, s0, last, cmd, p, evs[0]);
        q := LostRun(y1, s0, last, cmd, p1, evs[1..]);
      }
    }
  }

  /** Exactly: when a command is over, the first report of the sniffer is the right one iff every half time that was
      reached while a message was in flight came when all bytes still to come of that message were NULL bytes. */
  lemma ReportRightIff(y: Sys, cmd: Cmd, evs: seq<Event>)
    requires Start(y, cmd) && Over(Run(y, cmd, evs))
    ensures ReportedRight(Run(y, cmd, evs).s, y.s, cmd) <==> AllPass(y, cmd, evs)
  {
    CoreStart(y, cmd);
    assert Near(cmd, Header(0), Header(0));
    var q := RightRun(y, y.s, y.ac, cmd, Header(0), evs);
    CoreOver(Run(y, cmd, evs), y.s, y.ac, cmd, q);
  }

  // ---------------------------------------------------------------- the sniffer afterwards

  /** It has reported before the emulator is through, so that the rest is taken for the start of something else. */
  predicate Early(s: S.Sniff, s0: S.Sniff, p: Phase) {
    && |s.reports| > |s0.reports|
    && (p == HalfStatus || (p == Done && (s.iso != S.WaitTpdu || |s.reports| > |s0.reports| + 1)))
  }

  lemma EarlyStays(y: Sys, s0: S.Sniff, last: H.Apdu, cmd: Cmd, p: Phase, ev: Event)
    requires Core(y, s0, last, cmd, p) && Early(y.s, s0, p)
    ensures Early(Step(y, cmd, ev).s, s0, After(y, cmd, p, ev))
  {
    WireIs(y, s0, last, cmd, p, ev);
    Blind(y, y.s, cmd, ev);
    if Wire(y, cmd, ev) != [] {
      SaysMore(y.s, Wire(y, cmd, ev)[0]);
    }
  }

  lemma {:induction false} EarlyRun(y: Sys, s0: S.Sniff, last: H.Apdu, cmd: Cmd, p: Phase, evs: seq<Event>)
    returns (q: Phase)
    requires Core(y, s0, last, cmd, p) && Early(y.s, s0, p)
    ensures Core(Run(y, cmd, evs), s0, last, cmd, q) && Early(Run(y, cmd, evs).s, s0, q)
    decreases |evs|
  {
    q := p;
    if evs != [] {
      CoreStep(y, s0, last, cmd, p, evs[0]);
      EarlyStays(y, s0, last, cmd, p, evs[0]);
      q := EarlyRun(Step(y, cmd, evs[0]), s0, last, cmd, After(y, cmd, p, evs[0]), evs[1..]);
    }
  }

  predicate AllSpare(y: Sys, cmd: Cmd, evs: seq<Event>)
    requires R.Inv(y.e)
    decreases |evs|
  {
    evs != [] ==>
      Spares(y, evs[0]) && (StepKeeps(y, cmd, evs[0]); AllSpare(Step(y, cmd, evs[0]), cmd, evs[1..]))
  }

  lemma FollowsBreaks(y: Sys, s0: S.Sniff, last: H.Apdu, cmd: Cmd, p: Phase, ev: Event)
    requires Core(y, s0, last, cmd, p) && Follows(y.s, s0, cmd, p) && !Spares(y, ev)
    ensures var s1, q := Step(y, cmd, ev).s, After(y, cmd, p, ev); Lost(s1, s0, cmd, q) || Early(s1, s0, q)
  {
    NullHeard(y, s0, last, cmd, p);
    if p == HalfStatus {
      NullAsSw2(s0, cmd, last);
    } else {
      BrokenBy(y.s, s0, last, cmd, p);
    }
  }

  lemma {:induction false} FollowRun(y: Sys, s0: S.Sniff, last: H.Apdu, cmd: Cmd, p: Phase, evs: seq<Event>)
    returns (q: Phase)
    requires Core(y, s0, last, cmd, p) && Follows(y.s, s0, cmd, p)
    ensures var r := Run(y, cmd, evs);
      && Core(r, s0, last, cmd, q)
      && (if AllSpare(y, cmd, evs) then Follows(r.s, s0, cmd, q) else Lost(r.s, s0, cmd, q) || Early(r.s, s0, q))
    decreases |evs|
  {
    q := p;
    if evs != [] {
      var y1, p1 := Step(y, cmd, evs[0]), After(y, cmd, p, evs[0]);
      CoreStep(y, s0, last, cmd, p, evs[0]);
      if Spares(y, evs[0]) {
        FollowsStep(y, s0, last, cmd, p, evs[0]);
        q := FollowRun(y1, s0, last, cmd, p1, evs[1..]);
      } else {
        FollowsBreaks(y, s0, last, cmd, p, evs[0]);
        if Lost(y1.s, s0, cmd, p1) {
          q := LostRun(y1, s0, last, cmd, p1, evs[1..]);
        } else {
          q := EarlyRun(y1, s0, last, cmd, p1, evs[1..]);
        }
      }
    }
  }

  /** Exactly: the right report is the only one, and the sniffer waits for the next command as everybody else, iff every
      such half time came within the data of the answer, all those still to come being NULL bytes. */
  lemma SnifferUnaffectedIff(y: Sys, cmd: Cmd, evs: seq<Event>)
    requires Start(y, cmd) && Over(Run(y, cmd, evs))
    ensures var r := Run(y, cmd, evs);
      r.s.iso == S.WaitTpdu && r.s.reports == y.s.reports + [Right(cmd)] <==> AllSpare(y, cmd, evs)
  {
    CoreStart(y, cmd);
    assert Near(cmd, Header(0), Header(0));
    var q := FollowRun(y, y.s, y.ac, cmd, Header(0), evs);
    CoreOver(Run(y, cmd, evs), y.s, y.ac, cmd, q);
  }
}
