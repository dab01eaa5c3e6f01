/** firmware/libcommon/source/card_emu.c: the code behind the steps of `EmuSpec`. */
module CardEmu {
  import opened Iso7816
  import opened WaitTime
  import opened EmuSpec
  import R = EmuRuns

  /** `struct card_handle`, with the part of the UART driver that it commands. */
  class CardHandle {
    var iso: CardState
    var vcc: bool
    var inReset: bool
    var clocked: bool

    // indices into the tables of F and D, waiting integer and time, baud rate register
    var f: nat
    var d: nat
    var wi: nat
    var wt: nat
    var fidi: nat

    const atr: array<byte>
    var atrLen: nat
    var idx: nat

    var ptsResp: bool
    var ptsField: PpsField
    const req: array<byte>
    const resp: array<byte>

    var tpdu: TpduState
    const hdr: array<byte>

    var rx: Option<seq<byte>>
    var tx: Option<TxMsg>
    var queue: seq<TxMsg>

    var uart: Uart
    const timer: WaitTimer
    var toHost: seq<ToHost>
    ghost var log: seq<Entry>

    ghost predicate Valid()
      reads this, timer
    {
      && atr.Length == ATR_LEN_MAX && atrLen <= ATR_LEN_MAX
      && req.Length == 6 && resp.Length == 6 && hdr.Length == 5
      && atr != req && atr != resp && atr != hdr && req != resp && req != hdr && resp != hdr
      && ptsField != PpsEnd && Live(timer.State())
      && (tx.Some? ==> |tx.value.data| > 0) && (forall m <- queue :: |m.data| > 0)
    }

    ghost function State(): (e: Emu)
      requires Valid()
      reads this, timer, atr, req, resp, hdr
      ensures Shaped(e)
    {
      Emu(iso, vcc, inReset, clocked, f, d, wi, wt, fidi, atr[..atrLen], idx,
          Pts(ptsResp, ptsField, req[..], resp[..]), tpdu, hdr[..], rx, tx, queue,
          uart, timer.State(), toHost, log)
    }

    /** `card_emu_init` */
    constructor (vcc0: bool, inReset0: bool, clocked0: bool)
      ensures Valid() && State() == Init(vcc0, inReset0, clocked0)
      ensures fresh(timer) && fresh(atr) && fresh(req) && fresh(resp) && fresh(hdr)
    {
      iso, vcc, inReset, clocked := WaitPower, vcc0, inReset0, clocked0;
      f, d, wi, wt, fidi := 1, 1, DEFAULT_WI, INIT_WTIME, 372;
      ptsResp, ptsField, tpdu := false, PPSS, WaitCla;
      rx, tx, queue, uart, toHost, log := None, None, [], Off, [], [Cleared];
      atrLen, idx := |DEFAULT_ATR|, 0;
      atr := new byte[ATR_LEN_MAX](i requires 0 <= i => if i < |DEFAULT_ATR| then DEFAULT_ATR[i] else 0);
      req, resp, hdr := new byte[6](_ => 0), new byte[6](_ => 0), new byte[5](_ => 0);
      timer := new WaitTimer();
      new;
      assert atr[..atrLen] == DEFAULT_ATR && req[..] == resp[..] == [0, 0, 0, 0, 0, 0] && hdr[..] == [0, 0, 0, 0, 0];
    }

    // ---------------------------------------------------------------- UART and host

    method UartTx(b: byte, source: Source)
      requires Valid()
      modifies `log
      ensures Valid() && State() == Send(old(State()), b, source)
    {
      log := log + [Sent(b, source)];
    }

    /** `card_emu_uart_enable` */
    method Enable(mode: Uart)
      requires Valid()
      modifies `uart
      ensures Valid() && State() == old(State()).(uart := mode)
    {
      uart := mode;
    }

    method ResetWt()
      requires Valid()
      modifies timer
      ensures Valid() && State() == RestartTimer(old(State()))
    {
      timer.ResetWt();
    }

    method UpdateWt(total: nat)
      requires Valid()
      modifies timer
      ensures Valid() && State() == old(State()).(timer := Start(total))
    {
      timer.UpdateWt(total);
    }

    /** `emu_update_fidi` */
    method UpdateFidi()
      requires Valid()
      modifies `fidi
      ensures Valid() && State() == old(State()).(fidi := UartRatio(old(fidi), f, d))
    {
      var ratio := FdRatio(f, d);
      if ratio > 0 && ratio <= 0x7ff {
        fidi := ratio;
      }
    }

    /** `emu_update_wt` */
    method UpdateWaitingTime()
      requires Valid()
      modifies `wt
      ensures Valid() && State() == old(State()).(wt := WaitingTime(wi, EmuD(d)))
    {
      var divisor := 1;
      if d >= 1 && d <= 9 {
        divisor := DI_TABLE[d];
      }
      wt := wi * 960 * divisor;
    }

    /** `card_handle_reset` */
    method Reset()
      requires Valid()
      modifies `tx, `rx, `queue, `log, timer
      ensures Valid() && State() == HandleReset(old(State()))
    {
      UpdateWt(0);
      DropMessages();
      DrainQueue();
      log := log + [Cleared];
    }

    method DropMessages()
      requires Valid()
      modifies `tx, `rx
      ensures Valid() && State() == old(State()).(tx := None, rx := None)
    {
      tx, rx := None, None;
    }

    method DrainQueue()
      requires Valid()
      modifies `queue
      ensures Valid() && State() == old(State()).(queue := [])
    {
      while queue != []
        invariant Valid()
        decreases |queue|
      {
        queue := queue[1..];
      }
    }

    /** `set_tpdu_state` */
    method SetTpduState(t: TpduState)
      requires Valid()
      modifies `tpdu, `uart, timer
      ensures Valid() && State() == SetTpdu(old(State()), t)
    {
      if tpdu == t {
        return;
      }
      tpdu := t;
      match t {
        case WaitCla =>
          Enable(RxOn);
          UpdateWt(0);
        case WaitIns => UpdateWt(wt);
        case WaitRx =>
          Enable(RxOn);
          UpdateWt(wt);
        case WaitPb =>
          Enable(TxOn);
          UpdateWt(wt);
        case WaitTx =>
          Enable(TxOn);
          UpdateWt(wt);
        case _ =>
      }
    }

    /** `card_set_state` */
    method SetState(to: CardState)
      requires Valid()
      modifies this, timer
      ensures Valid() && State() == SetIso(old(State()), to)
    {
      if iso == to {
        return;
      }
      iso := to;
      match to {
        case WaitPower => Deactivate();
        case WaitClk => Deactivate();
        case WaitRst => Deactivate();
        case WaitAtr => PrepareAtr();
        case InAtr => StartAtr();
        case WaitTpdu =>
          SetTpduState(WaitCla);
          Enable(RxOn);
        case _ =>
      }
    }

    method Deactivate()
      requires Valid()
      modifies `uart, timer
      ensures Valid() && State() == old(State()).(uart := Off, timer := Start(0))
    {
      Enable(Off);
      UpdateWt(0);
    }

    method PrepareAtr()
      requires Valid()
      modifies `f, `d, `wi, `wt, `fidi, `uart, timer
      ensures Valid()
      ensures State() == old(State()).(f := 1, d := 1, wi := DEFAULT_WI, wt := INIT_WTIME,
                                       fidi := UartRatio(old(fidi), 1, 1), uart := TimerOnly, timer := Start(2))
    {
      SetFd(1, 1);
      DefaultWt();
      UpdateFidi();
      Enable(TimerOnly);
      UpdateWt(2);
    }

    method StartAtr()
      requires Valid()
      modifies `wi, `wt, `idx, `uart, timer
      ensures Valid()
      ensures State() == old(State()).(wi := DEFAULT_WI, wt := INIT_WTIME, timer := Start(INIT_WTIME), idx := 0,
                                       uart := TxOn)
    {
      DefaultWt();
      UpdateWt(wt);
      idx := 0;
      Enable(TxOn);
    }

    method DefaultWt()
      requires Valid()
      modifies `wi, `wt
      ensures Valid() && State() == old(State()).(wi := DEFAULT_WI, wt := INIT_WTIME)
    {
      wi, wt := DEFAULT_WI, INIT_WTIME;
    }

    method SetFd(f0: nat, d0: nat)
      requires Valid()
      modifies `f, `d
      ensures Valid() && State() == old(State()).(f := f0, d := d0)
    {
      f, d := f0, d0;
    }

    // ---------------------------------------------------------------- ATR

    /** `tx_byte_atr` */
    method TxByteAtr() returns (more: bool)
      requires Valid() && iso == InAtr
      modifies this, timer
      ensures Valid() && State() == TxAtr(old(State()))
      ensures more == (old(idx) < old(atrLen))
    {
      if idx < atrLen {
        var b := atr[idx];
        idx := idx + 1;
        UartTx(b, FromAtr);
        return true;
      }
      SearchTc2();
      UpdateWaitingTime();
      SetState(WaitTpdu);
      more := false;
    }

    method SearchTc2()
      requires Valid()
      modifies `wi
      ensures Valid() && State() == old(State()).(wi := SearchWi(old(State()).atr))
    {
      var w := FindWi();
      SetWi(w);
    }

    method FindWi() returns (w: nat)
      requires Valid()
      ensures w == SearchWi(State().atr)
    {
      w := DEFAULT_WI;
      if atrLen >= 2 && atr[1] & 0xf0 != 0 {
        var td1 := CountPresent(2, atr[1], true);
        if atr[1] & 0x80 != 0 {
          w := SearchAfterTd1(td1);
        }
      }
    }

    method SearchAfterTd1(td1: nat) returns (w: nat)
      requires Valid()
      ensures w == WiAfterTd1(State().atr, td1)
    {
      w := DEFAULT_WI;
      if atrLen > td1 && atr[td1] & 0xf0 != 0 {
        var tc2 := CountPresent(td1 + 1, atr[td1], false);
        if atr[td1] & 0x40 != 0 {
          if atrLen > tc2 && atr[tc2] != 0 {
            w := atr[tc2] as int;
          }
        }
      }
    }

    method SetWi(w: nat)
      requires Valid()
      modifies `wi
      ensures Valid() && State() == old(State()).(wi := w)
    {
      wi := w;
    }

    /** Past TA and TB, and TC if asked, as far as the indicator `y` has them. */
    method CountPresent(from: nat, y: byte, withTc: bool) returns (k: nat)
      ensures k == from + Bit(y, 0x10) + Bit(y, 0x20) + if withTc then Bit(y, 0x40) else 0
    {
      k := from;
      if y & 0x10 != 0 {
        k := k + 1;
      }
      if y & 0x20 != 0 {
        k := k + 1;
      }
      if withTc && y & 0x40 != 0 {
        k := k + 1;
      }
    }

    /** `card_emu_set_atr` */
    method SetAtr(a: seq<byte>) returns (ok: bool)
      requires Valid()
      modifies atr, `atrLen, `idx
      ensures Valid() && State() == OnSetAtr(old(State()), a)
      ensures ok == (|a| <= ATR_LEN_MAX)
    {
      if |a| > ATR_LEN_MAX {
        return false;
      }
      for i := 0 to |a|
        invariant atr[..i] == a[..i]
        invariant Valid() && State() == old(State()).(atr := atr[..atrLen])
      {
        atr[i] := a[i];
      }
      atrLen, idx := |a|, 0;
      assert atr[..atrLen] == a;
      ok := true;
    }

    // ---------------------------------------------------------------- PTS

    /** `serialize_pts`: the used slots, one after the other. */
    method SerializePts(slots: array<byte>) returns (out: array<byte>, n: nat)
      requires slots.Length == 6
      ensures fresh(out) && n <= out.Length && out[..n] == Serialize(slots[..])
    {
      out := new byte[6];
      out[0], out[1] := slots[0], slots[1];
      n := 2;
      ghost var head := out[..2];
      n := PutIf(out, n, slots[1] & 0x10 != 0, slots[2]);
      n := PutIf(out, n, slots[1] & 0x20 != 0, slots[3]);
      n := PutIf(out, n, slots[1] & 0x40 != 0, slots[4]);
      n := PutIf(out, n, true, slots[5]);
    }

    method PutIf(out: array<byte>, n: nat, c: bool, b: byte) returns (n': nat)
      requires n < out.Length
      modifies out
      ensures n' == if c then n + 1 else n
      ensures out[..n'] == old(out[..n]) + if c then [b] else []
    {
      n' := n;
      if c {
        out[n] := b;
        n' := n + 1;
      }
    }

    /** `csum_pts` */
    method CsumPts(slots: array<byte>) returns (csum: byte)
      requires slots.Length == 6
      ensures csum == Csum(slots[..])
    {
      var out, n := SerializePts(slots);
      ghost var all := out[..n];
      assert n == |Serialize(slots[..])| && n >= 3;
      csum := 0;
      for i := 0 to n - 1
        invariant csum == XorAll(out[..i])
        invariant out[..n] == all
      {
        XorConcat(out[..i], [out[i]]);
        assert out[..i + 1] == out[..i] + [out[i]];
        csum := csum ^ out[i];
      }
      assert all[..n - 1] == out[..n - 1];
    }

    /** `flush_pts` */
    method FlushPts()
      requires Valid()
      modifies `toHost
      ensures Valid()
      ensures State() == Tell(old(State()), PtsInfo(Serialize(req[..]), Serialize(resp[..])))
    {
      var r, n := SerializePts(req);
      var a, k := SerializePts(resp);
      toHost := toHost + [PtsInfo(r[..n], a[..k])];
    }

    method SetPts(isResp: bool, field: PpsField)
      requires Valid() && field != PpsEnd
      modifies `ptsResp, `ptsField
      ensures Valid()
      ensures State() == old(State()).(pts := old(State()).pts.(resp := isResp, field := field))
    {
      ptsResp, ptsField := isResp, field;
    }

    /** `next_pts_state` */
    method AdvancePts()
      requires Valid() && (ptsResp || ptsField != PCK)
      modifies `ptsResp, `ptsField
      ensures Valid() && State() == old(State()).(pts := NextPts(old(State()).pts))
    {
      var pts0 := if ptsResp then resp[1] else req[1];
      if ptsField in {PPSS, PCK} {
        SetPts(ptsResp, PPS0);
      } else if ptsField == PPS0 && pts0 & 0x10 != 0 {
        SetPts(ptsResp, PPS1);
      } else if ptsField in {PPS0, PPS1} && pts0 & 0x20 != 0 {
        SetPts(ptsResp, PPS2);
      } else if ptsField in {PPS0, PPS1, PPS2} && pts0 & 0x40 != 0 {
        SetPts(ptsResp, PPS3);
      } else {
        SetPts(ptsResp, PCK);
      }
    }

    method StoreReq(b: byte)
      requires Valid()
      modifies req
      ensures Valid()
      ensures State() ==
        old(State()).(pts := old(State()).pts.(reqSlots := old(State()).pts.reqSlots[Slot(ptsField) := b]))
    {
      ghost var was := req[..];
      req[Slot(ptsField)] := b;
      assert req[..] == was[Slot(ptsField) := b];
    }

    /** `process_byte_pts`, and the change of state its result asks for. */
    method ProcessBytePts(b: byte)
      requires Valid()
      modifies this, timer, req, resp
      ensures Valid() && State() == PtsByte(old(State()), b)
    {
      if !ptsResp {
        StoreReq(b);
        if ptsField == PCK {
          CheckPts(b);
          return;
        }
      }
      AdvancePts();
      SetState(InPts);
    }

    method CheckPts(pck: byte)
      requires Valid() && !ptsResp
      modifies this, timer, resp
      ensures Valid() && State() == PtsCheck(old(State()), pck)
    {
      var csum := CsumPts(req);
      if pck != csum {
        SetPts(false, PPSS);
        SetState(WaitTpdu);
      } else {
        CopyRequest();
        SetPts(true, PPSS);
        FlushPts();
        Enable(TxOn);
      }
    }

    method CopyRequest()
      requires Valid()
      modifies resp
      ensures Valid() && State() == old(State()).(pts := old(State()).pts.(respSlots := req[..]))
      ensures resp[..] == req[..]
    {
      for i := 0 to 6
        invariant resp[..i] == req[..i]
        invariant Valid() && State() == old(State()).(pts := old(State()).pts.(respSlots := resp[..]))
      {
        resp[i] := req[i];
      }
      assert resp[..] == resp[..6] && req[..] == req[..6];
    }

    /** `tx_byte_pts` */
    method TxBytePts() returns (more: bool)
      requires Valid()
      modifies this, timer
      ensures Valid() && State() == TxPts(old(State()))
      ensures more == old(ptsResp)
    {
      if !ptsResp {
        return false;
      }
      var b := resp[Slot(ptsField)];
      if ptsField == PPS1 {
        SetFd(High(b), Low(b));
      }
      UartTx(b, FromPts);
      if ptsField == PCK {
        FinishPts();
      } else {
        AdvancePts();
      }
      more := true;
    }

    method FinishPts()
      requires Valid()
      modifies this, timer
      ensures Valid() && State() == PtsDone(old(State()))
    {
      UpdateFidi();
      UpdateWaitingTime();
      SetState(WaitTpdu);
      SetPts(false, PPSS);
    }

    // ---------------------------------------------------------------- TPDU

    method TellHost(m: ToHost)
      requires Valid()
      modifies `toHost
      ensures Valid() && State() == Tell(old(State()), m)
    {
      toHost := toHost + [m];
    }

    /** `flush_rx_buffer` */
    method FlushRxBuffer(flags: set<DataFlag>)
      requires Valid()
      modifies `rx, `toHost
      ensures Valid() && State() == FlushRx(old(State()), flags)
    {
      if rx.None? {
        return;
      }
      var data := rx.value;
      rx := None;
      TellHost(RxData(data, flags));
    }

    /** `add_tpdu_byte` */
    method AddTpduByte(b: byte)
      requires Valid()
      modifies `rx, `toHost, `tpdu, `uart, timer
      ensures Valid() && State() == AddByte(old(State()), b)
    {
      var n := hdr[4] as int;
      var data := if rx.Some? then rx.value else [];
      data := data + [b];
      rx := Some(data);
      if |data| >= n {
        FlushRxBuffer({Final});
        SetTpduState(WaitTx);
      } else if |data| >= RX_ROOM {
        // a full buffer would be flushed here, but there is room for more bytes than P3 can ask for
        assert false;
      }
    }

    /** `send_tpdu_header` */
    method SendTpduHeader()
      requires Valid()
      modifies `rx, `toHost
      ensures Valid() && State() == SendHeader(old(State()))
    {
      FlushRxBuffer({});
      TellHost(RxData(hdr[..], {TpduHdr}));
    }

    method StoreHdr(k: nat, b: byte)
      requires Valid() && k < 5
      modifies hdr
      ensures Valid() && State() == old(State()).(hdr := old(State()).hdr[k := b])
    {
      ghost var was := hdr[..];
      hdr[k] := b;
      assert hdr[..] == was[k := b];
    }

    /** `process_byte_tpdu`, and the change of state its result asks for. */
    method ProcessByteTpdu(b: byte)
      requires Valid()
      modifies this, timer, hdr
      ensures Valid() && State() == TpduByte(old(State()), b)
    {
      TakeTpduByte(b);
      SetState(InTpdu);
    }

    method TakeTpduByte(b: byte)
      requires Valid()
      modifies this, timer, hdr
      ensures Valid() && State() == TakeByte(old(State()), b)
    {
      match tpdu {
        case WaitP3 => LastHeaderByte(b);
        case WaitRx => AddTpduByte(b);
        case _ => EarlierHeaderByte(b);
      }
    }

    /** All but P3. */
    method EarlierHeaderByte(b: byte)
      requires Valid() && tpdu !in {WaitP3, WaitRx}
      modifies `tpdu, `uart, timer, hdr
      ensures Valid() && State() == TakeByte(old(State()), b)
    {
      match tpdu {
        case WaitCla => HeaderByte(0, b, WaitIns);
        case WaitIns => HeaderByte(1, b, WaitP1);
        case WaitP1 => HeaderByte(2, b, WaitP2);
        case WaitP2 => HeaderByte(3, b, WaitP3);
        case _ =>
      }
    }

    method LastHeaderByte(b: byte)
      requires Valid()
      modifies `tpdu, `uart, `rx, `toHost, timer, hdr
      ensures Valid()
      ensures State() == SendHeader(SetTpdu(old(State()).(hdr := old(State()).hdr[4 := b]), WaitPb))
    {
      HeaderByte(4, b, WaitPb);
      SendTpduHeader();
    }

    method HeaderByte(k: nat, b: byte, next: TpduState)
      requires Valid() && k < 5
      modifies `tpdu, `uart, timer, hdr
      ensures Valid() && State() == SetTpdu(old(State()).(hdr := old(State()).hdr[k := b]), next)
    {
      StoreHdr(k, b);
      SetTpduState(next);
    }

    /** The message to transmit from becomes the one in flight. */
    method FetchMsg() returns (found: bool)
      requires Valid()
      modifies `tx, `queue
      ensures Valid() && found == NextMsg(old(State())).Some?
      ensures var e := old(State());
        State() == if e.tx.Some? || !found then e else e.(tx := Some(e.queue[0]), queue := e.queue[1..])
      ensures found ==> tx.Some?
    {
      if tx.None? {
        if queue == [] {
          return false;
        }
        tx := Some(queue[0]);
        queue := queue[1..];
      }
      found := true;
    }

    /** `tx_byte_tpdu` */
    method TxByteTpdu() returns (more: bool)
      requires Valid()
      modifies this, timer
      ensures Valid() && State() == TxTpdu(old(State()))
      ensures more == NextMsg(old(State())).Some?
    {
      more := FetchMsg();
      if more {
        var m := tx.value;
        var b := m.data[0];
        m := m.(data := m.data[1..]);
        UartTx(b, FromHost);
        ResetWt();
        FollowFlags(m);
      }
    }

    /** What the flags ask for after a byte; `m` is what the message still holds. */
    method FollowFlags(m: TxMsg)
      requires Valid()
      modifies this, timer
      ensures Valid() && State() == AfterTx(old(State()), m)
    {
      if tpdu == WaitPb {
        if PbAndTx in m.flags {
          SetTpduState(WaitTx);
        } else if PbAndRx in m.flags {
          SetTpduState(WaitRx);
        }
      }
      if m.data == [] {
        FinishMsg(m.flags);
      } else {
        tx := Some(m);
      }
    }

    method FinishMsg(flags: set<DataFlag>)
      requires Valid()
      modifies this, timer
      ensures Valid() && State() == EndOfMsg(old(State()), flags)
    {
      if PbAndRx in flags {
        SetTpduState(WaitRx);
      } else if Final in flags {
        SetState(WaitTpdu);
      }
      tx := None;
    }

    // ---------------------------------------------------------------- the calls

    /** `card_emu_process_rx_byte` */
    method ProcessRxByte(b: byte)
      requires Valid()
      modifies this, timer, req, resp, hdr
      ensures Valid() && State() == RxByte(old(State()), b)
    {
      if iso == WaitTpdu && b == 0xff {
        SetPts(false, PPSS);
        ProcessBytePts(b);
      } else if iso in {WaitTpdu, InTpdu} {
        ProcessByteTpdu(b);
      } else if iso == InPts {
        ProcessBytePts(b);
      }
    }

    /** `card_emu_tx_byte` */
    method CardTxByte() returns (more: bool)
      requires Valid()
      modifies this, timer
      ensures Valid() && (State(), more) == TxByte(old(State()))
    {
      more := false;
      match iso {
        case InAtr => more := TxByteAtr();
        case InPts => more := TxBytePts();
        case InTpdu => more := TxByteTpdu();
        case _ =>
      }
    }

    /** The transmitter part of `usart_irq_rx` (mode_cardemu.c) */
    method IrqTxReady()
      requires Valid()
      modifies this, timer
      ensures Valid() && State() == OnTxReady(old(State()))
    {
      if uart == TxOn {
        var more := CardTxByte();
        if !more && uart == TxOn {
          Enable(TimerOnly);
        }
      }
    }

    /** `card_emu_wtime_half_expired` */
    method WtimeHalfExpired()
      requires Valid()
      modifies this, timer
      ensures Valid() && State() == HalfExpired(old(State()))
    {
      if iso == InTpdu && tpdu in {WaitPb, WaitTx} {
        UartTx(0x60, NullByte);
        ResetWt();
      }
    }

    /** `card_emu_wtime_expired` */
    method WtimeExpired()
      requires Valid()
      modifies this, timer
      ensures Valid() && State() == EmuSpec.WtimeExpired(old(State()))
    {
      if iso == WaitAtr {
        SetState(InAtr);
      }
    }

    /** The timeout part of `usart_irq_rx` */
    method IrqTimeout()
      requires Valid()
      modifies this, timer
      ensures Valid() && State() == OnTimeout(old(State()))
    {
      if uart in {TxOn, TimerOnly} && timer.rtor > 0 {
        var tick := CountRound();
        match tick {
          case Quiet =>
          case Half => WtimeHalfExpired();
          case Expired => WtimeExpired();
        }
      }
    }

    method CountRound() returns (tick: Tick)
      requires Valid()
      modifies timer
      ensures Valid() && State() == old(State()).(timer := Timeout(old(timer.State())).0)
      ensures tick == Timeout(old(timer.State())).1
    {
      tick := timer.OnTimeout();
    }

    /** The end of `card_emu_io_statechg` */
    method CheckActivation()
      requires Valid()
      modifies this, timer
      ensures Valid() && State() == Activated(old(State()))
    {
      if iso in {WaitPower, WaitClk, WaitRst} {
        if vcc && clocked && !inReset {
          SetState(WaitAtr);
        }
      }
    }

    method IoVcc(active: bool)
      requires Valid()
      modifies this, timer
      ensures Valid() && State() == OnVcc(old(State()), active)
    {
      if !active && vcc {
        Reset();
        SetState(WaitPower);
      } else if active && !vcc {
        SetState(WaitClk);
      }
      vcc := active;
      CheckActivation();
    }

    method IoClk(active: bool)
      requires Valid()
      modifies this, timer
      ensures Valid() && State() == OnClk(old(State()), active)
    {
      if active && !clocked {
        if iso == WaitClk {
          SetState(WaitRst);
        }
      }
      clocked := active;
      CheckActivation();
    }

    method IoRst(active: bool)
      requires Valid()
      modifies this, timer
      ensures Valid() && State() == OnRst(old(State()), active)
    {
      if !active && inReset {
        if vcc && clocked && iso == WaitRst {
          SetState(WaitAtr);
        }
      } else if active && !inReset {
        Reset();
        SetState(WaitRst);
      }
      inReset := active;
      CheckActivation();
    }

    /** `card_emu_have_new_uart_tx` */
    method HaveNewUartTx()
      requires Valid()
      modifies `uart
      ensures Valid()
      ensures State() == var e := old(State());
        if e.iso == InTpdu && e.tpdu in {WaitTx, WaitPb} then e.(uart := TxOn) else e
    {
      if iso == InTpdu {
        if tpdu in {WaitTx, WaitPb} {
          Enable(TxOn);
        }
      }
    }

    /** A data message in `dispatch_usb_command_cardem` (mode_cardemu.c) */
    method DispatchTxData(m: TxMsg)
      requires Valid() && m.data != []
      modifies `queue, `log, `uart
      ensures Valid() && State() == OnHostTx(old(State()), m)
    {
      if iso !in {InPts, WaitTpdu, InTpdu} {
        return;
      }
      queue := queue + [m];
      log := log + [Accepted(m.data)];
      HaveNewUartTx();
    }

    // ---------------------------------------------------------------- runs

    /** Whatever is called next. */
    method Handle(ev: Event)
      requires Valid() && R.Proper(ev)
      modifies this, timer, atr, req, resp, hdr
      ensures Valid() && State() == Step(old(State()), ev)
    {
      match ev {
        case Reader(b) => ProcessRxByte(b);
        case TxReady => IrqTxReady();
        case TimerRound => IrqTimeout();
        case Vcc(active) => IoVcc(active);
        case Clk(active) => IoClk(active);
        case Rst(active) => IoRst(active);
        case HostTx(m) => DispatchTxData(m);
        case SetAtr(a) => var ok := SetAtr(a);
      }
    }

    /** The card talks or prepares its ATR only with power and out of reset; data of the host is held only while the
        channel is ready; and what was transmitted since the last reset, followed by what is held, is exactly what was
        accepted since the last reset. */
    ghost predicate InOrder()
      requires Valid()
      reads this, timer, atr, req, resp, hdr
    {
      && R.Inv(State()) && R.Conserved(State())
      && (iso in {WaitAtr, InAtr, InPts, WaitTpdu, InTpdu} ==> vcc && !inReset)
      && (queue != [] || tx.Some? ==> iso in {InPts, WaitTpdu, InTpdu})
      && R.Offered(log) == R.Played(log) + (if tx.Some? then tx.value.data else []) + R.Flat(queue)
    }

    /** Any sequence of calls does what the runs of the specification do, and keeps the card in order. */
    method HandleAll(evs: seq<Event>)
      requires Valid() && InOrder() && R.AllProper(evs)
      modifies this, timer, atr, req, resp, hdr
      ensures Valid() && InOrder() && State() == R.Run(old(State()), evs)
    {
      var left := evs;
      while left != []
        invariant Valid() && R.Inv(State()) && R.AllProper(left)
        invariant R.Run(State(), left) == R.Run(old(State()), evs)
        decreases |left|
      {
        R.StepKeeps(State(), left[0]);
        Handle(left[0]);
        left := left[1..];
      }
      R.EveryRun(old(State()), evs);
      Orderly();
    }

    lemma Orderly()
      requires Valid() && R.Inv(State()) && R.Conserved(State())
      ensures InOrder()
    {
    }

    /** A card from its initialisation on, with any levels of the lines. */
    static method Run(vcc0: bool, inReset0: bool, clocked0: bool, evs: seq<Event>) returns (card: CardHandle)
      requires R.AllProper(evs)
      ensures fresh(card) && card.Valid() && card.InOrder()
      ensures R.Inv(Init(vcc0, inReset0, clocked0))
      ensures card.State() == R.Run(Init(vcc0, inReset0, clocked0), evs)
    {
      card := new CardHandle(vcc0, inReset0, clocked0);
      R.InitHolds(vcc0, inReset0, clocked0);
      card.Orderly();
      card.HandleAll(evs);
    }
  }
}
