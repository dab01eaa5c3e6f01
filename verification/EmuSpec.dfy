/** The card emulator (firmware/libcommon/source/card_emu.c) as a machine whose steps are the calls that the main loop
    and the interrupt handlers make. */
module EmuSpec {
  import opened Iso7816
  import opened WaitTime

  datatype CardState = WaitPower | WaitClk | WaitRst | WaitAtr | InAtr | InPts | WaitTpdu | InTpdu
  datatype TpduState = WaitCla | WaitIns | WaitP1 | WaitP2 | WaitP3 | WaitPb | WaitRx | WaitTx

  datatype Option<T> = None | Some(value: T)

  /** The interrupts of the UART that are enabled: receiver, transmitter with its timer, the timer alone. */
  datatype Uart = Off | RxOn | TxOn | TimerOnly

  /** CEMU_DATA_F_* */
  datatype DataFlag = TpduHdr | Final | PbAndTx | PbAndRx

  /** Data from the host that is not transmitted yet. */
  datatype TxMsg = TxMsg(data: seq<byte>, flags: set<DataFlag>)

  /** Messages to the host. */
  datatype ToHost =
    | RxData(data: seq<byte>, flags: set<DataFlag>)
    | PtsInfo(req: seq<byte>, resp: seq<byte>)

  datatype Source = FromAtr | FromPts | NullByte | FromHost

  /** What can be observed at the card: bytes handed to the UART, data accepted from the host, resets. */
  datatype Entry = Cleared | Accepted(data: seq<byte>) | Sent(b: byte, source: Source)

  /** `req` and `resp` are six slots each, of which PTS0 tells the used ones. */
  datatype Pts = Pts(resp: bool, field: PpsField, reqSlots: seq<byte>, respSlots: seq<byte>)

  datatype Emu = Emu(iso: CardState, vcc: bool, inReset: bool, clocked: bool,
                     f: nat, d: nat, wi: nat, wt: nat, fidi: nat,
                     atr: seq<byte>, idx: nat, pts: Pts, tpdu: TpduState, hdr: seq<byte>,
                     rx: Option<seq<byte>>, tx: Option<TxMsg>, queue: seq<TxMsg>,
                     uart: Uart, timer: Wt, toHost: seq<ToHost>, log: seq<Entry>)

  const ATR_LEN_MAX := 33
  const INIT_WTIME := 9600
  const DEFAULT_ATR: seq<byte> := [0x3b, 0x80, 0x80, 0x81, 0x1f, 0xc7, 0x59]

  /** Room for data in a USB buffer: 280 bytes without the message header and the fields of the data message. */
  const RX_ROOM := 280 - 8 - 6

  /** `card_emu_init` */
  function Init(vcc: bool, inReset: bool, clocked: bool): Emu {
    var zero := [0, 0, 0, 0, 0, 0];
    Emu(WaitPower, vcc, inReset, clocked, 1, 1, DEFAULT_WI, INIT_WTIME, 372, DEFAULT_ATR, 0,
        Pts(false, PPSS, zero, zero), WaitCla, [0, 0, 0, 0, 0], None, None, [], Off, Start(0), [], [Cleared])
  }

  // ---------------------------------------------------------------- the UART and the host

  function Send(e: Emu, b: byte, source: Source): Emu {
    e.(log := e.log + [Sent(b, source)])
  }

  function Tell(e: Emu, m: ToHost): Emu {
    e.(toHost := e.toHost + [m])
  }

  /** `card_emu_uart_reset_wt` */
  function RestartTimer(e: Emu): Emu {
    e.(timer := Start(e.timer.total))
  }

  /** `card_emu_ch_ready` */
  predicate Ready(e: Emu) {
    e.iso in {InPts, WaitTpdu, InTpdu}
  }

  /** `card_handle_reset` */
  function HandleReset(e: Emu): Emu {
    e.(timer := Start(0), tx := None, rx := None, queue := [], log := e.log + [Cleared])
  }

  // ---------------------------------------------------------------- states

  /** D as the card takes it: 1 outside the defined part of the table. */
  function EmuD(dIndex: nat): nat {
    if 1 <= dIndex <= 9 then DI_TABLE[dIndex] else 1
  }

  /** `set_tpdu_state` */
  function SetTpdu(e: Emu, t: TpduState): Emu {
    if e.tpdu == t then e
    else
      match t
      case WaitCla => e.(tpdu := t, uart := RxOn, timer := Start(0))
      case WaitIns => e.(tpdu := t, timer := Start(e.wt))
      case WaitRx => e.(tpdu := t, uart := RxOn, timer := Start(e.wt))
      case WaitPb => e.(tpdu := t, uart := TxOn, timer := Start(e.wt))
      case WaitTx => e.(tpdu := t, uart := TxOn, timer := Start(e.wt))
      case _ => e.(tpdu := t)
  }

  /** `card_set_state` */
  function SetIso(e: Emu, iso: CardState): Emu {
    if e.iso == iso then e
    else if iso in {WaitPower, WaitClk, WaitRst} then e.(iso := iso, uart := Off, timer := Start(0))
    else if iso == WaitAtr then
      e.(iso := iso, f := 1, d := 1, wi := DEFAULT_WI, wt := INIT_WTIME, fidi := UartRatio(e.fidi, 1, 1),
         uart := TimerOnly, timer := Start(2))
    else if iso == InAtr then
      e.(iso := iso, wi := DEFAULT_WI, wt := INIT_WTIME, timer := Start(INIT_WTIME), idx := 0, uart := TxOn)
    else if iso == WaitTpdu then SetTpdu(e.(iso := iso), WaitCla).(uart := RxOn)
    else e.(iso := iso)
  }

  // ---------------------------------------------------------------- ATR

  /** The waiting integer found in the ATR: TC2, if it is there and not zero. */
  function SearchWi(a: seq<byte>): nat {
    if |a| < 2 || a[1] & 0xf0 == 0 || a[1] & 0x80 == 0 then DEFAULT_WI
    else WiAfterTd1(a, 2 + Bit(a[1], 0x10) + Bit(a[1], 0x20) + Bit(a[1], 0x40))
  }

  function WiAfterTd1(a: seq<byte>, td1: nat): nat {
    if |a| <= td1 || a[td1] & 0xf0 == 0 then DEFAULT_WI
    else
      var tc2 := td1 + 1 + Bit(a[td1], 0x10) + Bit(a[td1], 0x20);
      if a[td1] & 0x40 != 0 && |a| > tc2 && a[tc2] != 0 then a[tc2] as int else DEFAULT_WI
  }

  function Bit(b: byte, mask: byte): nat {
    if b & mask != 0 then 1 else 0
  }

  /** `tx_byte_atr` */
  function TxAtr(e: Emu): Emu {
    if e.idx < |e.atr| then Send(e.(idx := e.idx + 1), e.atr[e.idx], FromAtr)
    else
      var wi := SearchWi(e.atr);
      SetIso(e.(wi := wi, wt := WaitingTime(wi, EmuD(e.d))), WaitTpdu)
  }

  // ---------------------------------------------------------------- PTS

  function Slot(f: PpsField): (k: nat)
    ensures k < 6
  {
    match f
    case PPSS => 0
    case PPS0 => 1
    case PPS1 => 2
    case PPS2 => 3
    case PPS3 => 4
    case _ => 5
  }

  /** `serialize_pts` */
  function Serialize(s: seq<byte>): seq<byte>
    requires |s| == 6
  {
    [s[0], s[1]]
    + ((if s[1] & 0x10 != 0 then [s[2]] else [])
       + ((if s[1] & 0x20 != 0 then [s[3]] else [])
          + ((if s[1] & 0x40 != 0 then [s[4]] else []) + [s[5]])))
  }

  /** `csum_pts` */
  function Csum(s: seq<byte>): byte
    requires |s| == 6
  {
    XorAll(Serialize(s)[..|Serialize(s)| - 1])
  }

  /** `next_pts_state`; after PCK of a request the response follows, see `PtsCheck`. */
  function NextPts(p: Pts): Pts
    requires |p.reqSlots| == |p.respSlots| == 6
  {
    if p.field in {PCK, PpsEnd} then p.(field := PPS0)
    else p.(field := NextPps(p.field, (if p.resp then p.respSlots else p.reqSlots)[1]))
  }

  ghost predicate Shaped(e: Emu) {
    |e.pts.reqSlots| == |e.pts.respSlots| == 6 && |e.hdr| == 5 && |e.atr| <= ATR_LEN_MAX
    && e.pts.field != PpsEnd && Live(e.timer)
    && (e.tx.Some? ==> |e.tx.value.data| > 0) && (forall m <- e.queue :: |m.data| > 0)
  }

  /** `process_byte_pts` */
  function PtsByte(e: Emu, b: byte): Emu
    requires Shaped(e)
  {
    var p := if e.pts.resp then e.pts else e.pts.(reqSlots := e.pts.reqSlots[Slot(e.pts.field) := b]);
    if p.resp || p.field != PCK then SetIso(e.(pts := NextPts(p)), InPts) else PtsCheck(e.(pts := p), b)
  }

  /** The request is complete: it is answered with itself if PCK is right. */
  function PtsCheck(e: Emu, pck: byte): Emu
    requires Shaped(e)
  {
    var req := e.pts.reqSlots;
    if pck != Csum(req) then SetIso(e.(pts := e.pts.(field := PPSS)), WaitTpdu)
    else
      Tell(e.(pts := e.pts.(resp := true, field := PPSS, respSlots := req), uart := TxOn),
           PtsInfo(Serialize(req), Serialize(req)))
  }

  /** `tx_byte_pts` */
  function TxPts(e: Emu): Emu
    requires Shaped(e)
  {
    if !e.pts.resp then e
    else
      var b := e.pts.respSlots[Slot(e.pts.field)];
      var e1 := if e.pts.field == PPS1 then e.(f := High(b), d := Low(b)) else e;
      var e2 := Send(e1, b, FromPts);
      if e.pts.field != PCK then e2.(pts := NextPts(e.pts)) else PtsDone(e2)
  }

  /** The response is transmitted: the new rate takes effect. */
  function PtsDone(e: Emu): Emu {
    SetIso(e.(fidi := UartRatio(e.fidi, e.f, e.d), wt := WaitingTime(e.wi, EmuD(e.d))), WaitTpdu)
      .(pts := e.pts.(resp := false, field := PPSS))
  }

  // ---------------------------------------------------------------- TPDU

  /** `flush_rx_buffer` */
  function FlushRx(e: Emu, flags: set<DataFlag>): Emu {
    if e.rx.None? then e else Tell(e.(rx := None), RxData(e.rx.value, flags))
  }

  /** `add_tpdu_byte`: a byte the reader sends; P3 is how many there are. */
  function AddByte(e: Emu, b: byte): Emu
    requires Shaped(e)
  {
    var data := (if e.rx.Some? then e.rx.value else []) + [b];
    var e1 := e.(rx := Some(data));
    if |data| >= e.hdr[4] as int then SetTpdu(FlushRx(e1, {Final}), WaitTx) else e1
  }

  /** `send_tpdu_header` */
  function SendHeader(e: Emu): Emu {
    Tell(FlushRx(e, {}), RxData(e.hdr, {TpduHdr}))
  }

  /** A byte of the header or, after an acknowledgement, of the data. */
  function TakeByte(e: Emu, b: byte): Emu
    requires Shaped(e)
  {
    match e.tpdu
    case WaitCla => SetTpdu(e.(hdr := e.hdr[0 := b]), WaitIns)
    case WaitIns => e.(hdr := e.hdr[1 := b], tpdu := WaitP1)
    case WaitP1 => e.(hdr := e.hdr[2 := b], tpdu := WaitP2)
    case WaitP2 => e.(hdr := e.hdr[3 := b], tpdu := WaitP3)
    case WaitP3 => SendHeader(SetTpdu(e.(hdr := e.hdr[4 := b]), WaitPb))
    case WaitRx => AddByte(e, b)
    case _ => e
  }

  /** `process_byte_tpdu` */
  function TpduByte(e: Emu, b: byte): Emu
    requires Shaped(e)
  {
    SetIso(TakeByte(e, b), InTpdu)
  }

  function AfterPb(e: Emu, m: TxMsg): Emu {
    if e.tpdu != WaitPb then e
    else if PbAndTx in m.flags then SetTpdu(e, WaitTx)
    else if PbAndRx in m.flags then SetTpdu(e, WaitRx)
    else e
  }

  /** The message in flight is transmitted. */
  function EndOfMsg(e: Emu, flags: set<DataFlag>): Emu {
    (if PbAndRx in flags then SetTpdu(e, WaitRx)
     else if Final in flags then SetIso(e, WaitTpdu)
     else e).(tx := None)
  }

  /** A byte was sent, and `m` is what the message still holds. */
  function AfterTx(e: Emu, m: TxMsg): Emu {
    if m.data != [] then AfterPb(e, m).(tx := Some(m)) else EndOfMsg(AfterPb(e, m), m.flags)
  }

  /** The message to transmit from: the one in flight, or the first of the queue. */
  function NextMsg(e: Emu): Option<TxMsg> {
    if e.tx.Some? then e.tx else if e.queue != [] then Some(e.queue[0]) else None
  }

  /** `tx_byte_tpdu` */
  function TxTpdu(e: Emu): Emu
    requires Shaped(e)
  {
    if NextMsg(e).None? then e
    else
      var m := NextMsg(e).value;
      var e1 := if e.tx.Some? then e else e.(tx := Some(m), queue := e.queue[1..]);
      AfterTx(RestartTimer(Send(e1, m.data[0], FromHost)), m.(data := m.data[1..]))
  }

  // ---------------------------------------------------------------- the calls

  /** `card_emu_process_rx_byte` */
  function RxByte(e: Emu, b: byte): Emu
    requires Shaped(e)
  {
    match e.iso
    case WaitTpdu => if b == 0xff then PtsByte(e.(pts := e.pts.(resp := false, field := PPSS)), b) else TpduByte(e, b)
    case InTpdu => TpduByte(e, b)
    case InPts => PtsByte(e, b)
    case _ => e
  }

  /** `card_emu_tx_byte`, and whether it had a byte to transmit. */
  function TxByte(e: Emu): (Emu, bool)
    requires Shaped(e)
  {
    match e.iso
    case InAtr => (TxAtr(e), e.idx < |e.atr|)
    case InPts => (TxPts(e), e.pts.resp)
    case InTpdu => (TxTpdu(e), NextMsg(e).Some?)
    case _ => (e, false)
  }

  /** The transmitter is ready; without a byte for it its interrupt is turned off. */
  function OnTxReady(e: Emu): Emu
    requires Shaped(e)
  {
    if e.uart != TxOn then e
    else
      var (e1, more) := TxByte(e);
      if more || e1.uart != TxOn then e1 else e1.(uart := TimerOnly)
  }

  /** `card_emu_wtime_half_expired` */
  function HalfExpired(e: Emu): Emu {
    if e.iso == InTpdu && e.tpdu in {WaitPb, WaitTx} then RestartTimer(Send(e, 0x60, NullByte)) else e
  }

  /** `card_emu_wtime_expired` */
  function WtimeExpired(e: Emu): Emu {
    if e.iso == WaitAtr then SetIso(e, InAtr) else e
  }

  /** The timer interrupt is enabled and the counter runs. */
  predicate TimerRuns(e: Emu) {
    e.uart in {TxOn, TimerOnly} && e.timer.rtor > 0
  }

  /** A round of the counter is over. */
  function OnTimeout(e: Emu): Emu
    requires Shaped(e)
  {
    if !TimerRuns(e) then e
    else
      var (w, tick) := Timeout(e.timer);
      var e1 := e.(timer := w);
      match tick
      case Quiet => e1
      case Half => HalfExpired(e1)
      case Expired => WtimeExpired(e1)
  }

  /** The end of `card_emu_io_statechg`: activated, even if not in the order of the standard. */
  function Activated(e: Emu): Emu {
    if e.iso in {WaitPower, WaitClk, WaitRst} && e.vcc && e.clocked && !e.inReset then SetIso(e, WaitAtr) else e
  }

  function OnVcc(e: Emu, active: bool): Emu {
    var e1 :=
      if !active && e.vcc then SetIso(HandleReset(e), WaitPower)
      else if active && !e.vcc then SetIso(e, WaitClk)
      else e;
    Activated(e1.(vcc := active))
  }

  function OnClk(e: Emu, active: bool): Emu {
    var e1 := if active && !e.clocked && e.iso == WaitClk then SetIso(e, WaitRst) else e;
    Activated(e1.(clocked := active))
  }

  function OnRst(e: Emu, active: bool): Emu {
    var e1 :=
      if !active && e.inReset && e.vcc && e.clocked && e.iso == WaitRst then SetIso(e, WaitAtr)
      else if active && !e.inReset then SetIso(HandleReset(e), WaitRst)
      else e;
    Activated(e1.(inReset := active))
  }

  /** Data from the host: `dispatch_usb_command_cardem`, `card_emu_have_new_uart_tx`. */
  function OnHostTx(e: Emu, m: TxMsg): Emu {
    if !Ready(e) then e
    else
      var e1 := e.(queue := e.queue + [m], log := e.log + [Accepted(m.data)]);
      if e.iso == InTpdu && e.tpdu in {WaitTx, WaitPb} then e1.(uart := TxOn) else e1
  }

  /** `card_emu_set_atr` */
  function OnSetAtr(e: Emu, atr: seq<byte>): Emu {
    if |atr| > ATR_LEN_MAX then e else e.(atr := atr, idx := 0)
  }

  datatype Event =
    | Reader(b: byte) | TxReady | TimerRound | Vcc(active: bool) | Clk(active: bool) | Rst(active: bool)
    | HostTx(m: TxMsg) | SetAtr(atr: seq<byte>)

  function Step(e: Emu, ev: Event): Emu
    requires Shaped(e) && (ev.HostTx? ==> ev.m.data != [])
  {
    match ev
    case Reader(b) => RxByte(e, b)
    case TxReady => OnTxReady(e)
    case TimerRound => OnTimeout(e)
    case Vcc(active) => OnVcc(e, active)
    case Clk(active) => OnClk(e, active)
    case Rst(active) => OnRst(e, active)
    case HostTx(m) => OnHostTx(e, m)
    case SetAtr(atr) => OnSetAtr(e, atr)
  }
}
