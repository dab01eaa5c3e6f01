/** The sniffer (firmware/libcommon/source/sniffer.c) as a machine over bytes: what it has collected, what
    it expects next, what it reported.  Stale buffer contents do not appear here. */
module SniffSpec {
  import opened Iso7816

  datatype IsoState = Reset | WaitAtr | InAtr | WaitTpdu | InTpdu | InPpsReq | WaitPpsRsp | InPpsRsp

  datatype AtrField = TS | T0 | TA | TB | TC | TD | Hist | TCK
  datatype TpduField = CLA | INS | P1 | P2 | P3 | Procedure | DataRemaining | DataSingle | SW1 | SW2

  datatype Flag = Incomplete | Malformed | Checksum

  /** Messages to the host. */
  datatype Report =
    | AtrReport(data: seq<byte>, flags: set<Flag>)
    | PpsReport(data: seq<byte>, flags: set<Flag>)
    | TpduReport(data: seq<byte>, flags: set<Flag>)
    | FidiReport(fidi: byte)

  /** `hist`: historical bytes to come; `y`: indicator of the current group; `group`: its number;
      `protocols`: the set bits of `t_protocol_support`. */
  datatype Atr = Atr(state: AtrField, got: seq<byte>, hist: nat, y: byte, group: nat, protocols: set<byte>,
                     convert: bool, flags: set<Flag>)
  datatype Pps = Pps(state: PpsField, got: seq<byte>)
  datatype Tpdu = Tpdu(state: TpduField, got: seq<byte>)
  datatype Rate = Rate(wi: nat, d: nat, wt: nat, fidi: nat)

  datatype Sniff = Sniff(iso: IsoState, atr: Atr, pps: Pps, tpdu: Tpdu, rate: Rate, reports: seq<Report>)

  const MAX_ATR_SIZE := 33
  const PACKET_SIZE := 5 + 256 + 2

  // ---------------------------------------------------------------- state changes

  function UpdateWt(r: Rate, wi: nat, d: nat): Rate {
    var wi', d' := if wi != 0 then wi else r.wi, if d != 0 then d else r.d;
    Rate(wi', d', WaitingTime(wi', d'), r.fidi)
  }

  function UpdateFidi(r: Rate, fidi: byte): Rate {
    r.(fidi := UartRatio(r.fidi, High(fidi), Low(fidi)))
  }

  /** `change_state` */
  function Enter(s: Sniff, iso: IsoState): Sniff {
    if s.iso == iso then s
    else
      var s' := s.(iso := iso);
      match iso
      case Reset => s'.(rate := UpdateWt(UpdateFidi(s.rate, 0x11), 10, 1))
      case InAtr => s'.(atr := s.atr.(state := TS, got := [], protocols := {}, convert := false))
      case InPpsReq => s'.(pps := Pps(PPSS, []))
      case InPpsRsp => s'.(pps := Pps(PPSS, []))
      case WaitTpdu => s'.(tpdu := Tpdu(CLA, []))
      case _ => s'
  }

  function Say(s: Sniff, r: Report): Sniff {
    s.(reports := s.reports + [r])
  }

  // ---------------------------------------------------------------- ATR (section 8.2)

  /** TCK is due iff some TD named a protocol other than T=0. */
  predicate TckDue(a: Atr) {
    a.protocols - {0} != {}
  }

  /** The first interface byte of the group that comes after the `rank` first ones and is indicated. */
  function NextInterface(y: byte, rank: nat): (f: AtrField) {
    if rank < 1 && y & 0x10 != 0 then TA
    else if rank < 2 && y & 0x20 != 0 then TB
    else if rank < 3 && y & 0x40 != 0 then TC
    else if rank < 4 && y & 0x80 != 0 then TD
    else Hist
  }

  /** The ATR goes on with the next expected byte, or it is over. */
  function Settle(s: Sniff, rank: nat): Sniff {
    var f := NextInterface(s.atr.y, rank);
    if f != Hist || s.atr.hist > 0 then s.(atr := s.atr.(state := f))
    else if TckDue(s.atr) then s.(atr := s.atr.(state := TCK))
    else AtrDone(s)
  }

  function AtrDone(s: Sniff): Sniff {
    Enter(Say(s, AtrReport(s.atr.got, s.atr.flags)), WaitTpdu)
  }

  /** The initial character selects the convention. */
  function TsByte(s: Sniff, b: byte): Sniff {
    var a := s.atr.(flags := {}, group := 0);
    if b in {0x23, 0x30} then s.(atr := a.(state := T0, convert := !a.convert))
    else if b in {0x3b, 0x3f} then s.(atr := a.(state := T0))
    else Enter(Say(s.(atr := a), AtrReport(a.got, {Malformed})), WaitAtr)
  }

  /** T0 and TDi tell which interface bytes come next. */
  function FormatByte(s: Sniff, b: byte): Sniff {
    var a := if s.atr.state == T0 then s.atr.(hist := Low(b)) else s.atr.(protocols := s.atr.protocols + {b & 0x0f});
    Settle(s.(atr := a.(y := b & 0xf0, group := a.group + 1)), 0)
  }

  /** TC2 encodes WI. */
  function TcByte(s: Sniff, b: byte): Sniff {
    Settle(if s.atr.group == 2 then s.(rate := UpdateWt(s.rate, if b == 0 then DEFAULT_WI else b as int, 0)) else s, 3)
  }

  function HistByte(s: Sniff): Sniff {
    Settle(s.(atr := s.atr.(hist := if s.atr.hist > 0 then s.atr.hist - 1 else 0)), 4)
  }

  function TckByte(s: Sniff): Sniff
    requires s.atr.got != []
  {
    var wrong := XorAll(s.atr.got[1..]) != 0;
    AtrDone(s.(atr := s.atr.(flags := s.atr.flags + if wrong then {Checksum} else {})))
  }

  /** `process_byte_atr` */
  function AtrByte(s0: Sniff, b: byte): Sniff {
    if s0.iso != InAtr || |s0.atr.got| >= MAX_ATR_SIZE then s0
    else
      var s := s0.(atr := s0.atr.(got := s0.atr.got + [b]));
      match s.atr.state
      case TS => TsByte(s, b)
      case T0 => FormatByte(s, b)
      case TD => FormatByte(s, b)
      case TA => Settle(s, 1)
      case TB => Settle(s, 2)
      case TC => TcByte(s, b)
      case Hist => HistByte(s)
      case TCK => TckByte(s)
  }

  // ---------------------------------------------------------------- PPS (section 9)

  /** What the UART is set from: PPS1, or PPS0 when there is no PPS1. */
  function RateByte(got: seq<byte>): byte
    requires |got| >= 2
  {
    if got[1] & 0x10 != 0 && |got| > 2 then got[2] else got[1]
  }

  /** `process_byte_pps` */
  function PpsByte(s0: Sniff, b: byte): Sniff {
    if s0.iso !in {InPpsReq, InPpsRsp} then s0
    else if s0.pps.state == PpsEnd then s0
    else if s0.pps.state == PPSS && b != 0xff then Enter(Say(s0, PpsReport([], {Malformed})), WaitTpdu)
    else
      var got := s0.pps.got + [b];
      var next := NextPps(s0.pps.state, if |got| > 1 then got[1] else 0);
      var s := s0.(pps := Pps(next, got));
      if next != PpsEnd then s else PpsDone(s)
  }

  /** A complete PPS request or response. */
  function PpsDone(s: Sniff): Sniff {
    var got := s.pps.got;
    var ok := XorAll(got) == 0;
    var s' := Say(s, PpsReport(got, if ok then {} else {Checksum}));
    if s.iso == InPpsReq then Enter(s', if ok then WaitPpsRsp else WaitTpdu)
    else if !ok || |got| < 2 then Enter(s', WaitTpdu)
    else
      var dn := if got[1] & 0x10 != 0 then Low(RateByte(got)) else 1;
      var r := UpdateWt(UpdateFidi(s.rate, RateByte(got)), 0, DI_TABLE[dn]);
      Enter(Say(s'.(rate := r), FidiReport(RateByte(got))), WaitTpdu)
  }

  // ---------------------------------------------------------------- TPDU (section 10.3)

  predicate IsSw1(b: byte) {
    b & 0xf0 == 0x60 || b & 0xf0 == 0x90
  }

  /** Number of data bytes P3 stands for on the sniffer's side. */
  function DataLength(p3: byte): (n: nat)
    ensures 0 < n <= 256
  {
    if p3 == 0 then 256 else p3 as int
  }

  function Reject(s: Sniff): Sniff {
    Enter(Say(s, TpduReport(s.tpdu.got, {Malformed})), WaitTpdu)
  }

  function Collect(s: Sniff, b: byte, next: TpduField): Sniff {
    s.(tpdu := Tpdu(next, s.tpdu.got + [b]))
  }

  function Expect(s: Sniff, next: TpduField): Sniff {
    s.(tpdu := s.tpdu.(state := next))
  }

  /** NULL, an acknowledgement of all or of one data byte, or SW1. */
  function ProcedureByte(s: Sniff, b: byte): Sniff
    requires |s.tpdu.got| >= 5
  {
    if b == 0x60 then s
    else if b == s.tpdu.got[1] then Expect(s, DataRemaining)
    else if b == !s.tpdu.got[1] then Expect(s, DataSingle)
    else if IsSw1(b) then Collect(s, b, SW2)
    else Reject(s)
  }

  /** `process_byte_tpdu` */
  function TpduByte(s: Sniff, b: byte): Sniff {
    var got := s.tpdu.got;
    if s.iso != InTpdu || |got| >= PACKET_SIZE then s
    else
      match s.tpdu.state
      case CLA => if b == 0xff then Reject(s) else Collect(s, b, INS)
      case INS => if IsSw1(b) then Reject(s) else Collect(s, b, P1)
      case P1 => Collect(s, b, P2)
      case P2 => Collect(s, b, P3)
      case P3 => Collect(s, b, Procedure)
      case Procedure =>
        if |got| < 5 then s else ProcedureByte(s, b)
      case SW1 => if IsSw1(b) then Collect(s, b, SW2) else Reject(s)
      case SW2 =>
        var s' := Collect(s, b, SW2);
        Enter(Say(s', TpduReport(s'.tpdu.got, {})), WaitTpdu)
      case DataSingle => Collect(s, b, Procedure)
      case DataRemaining =>
        if |got| < 5 then s
        else Collect(s, b, if 5 + DataLength(got[4]) <= |got| + 1 then Procedure else DataRemaining)
  }

  // ---------------------------------------------------------------- Sniffer_run

  /** The `n` lowest bits of `b`, the lowest one first, from the top bit of the result on. */
  function Mirror(b: byte, n: nat): byte
    decreases n, b
  {
    if n == 0 then 0 else ((b & 1) << 7) | (Mirror(b >> 1, n - 1) >> 1)
  }

  /** What a byte of the other convention looks like: the bits in the other order, and complemented. */
  function Convert(b: byte): byte {
    !Mirror(b, 8)
  }

  /** A byte on the wire. */
  function OnByte(s: Sniff, raw: byte): Sniff {
    var b := if s.atr.convert then Convert(raw) else raw;
    match s.iso
    case Reset => s
    case WaitAtr => AtrByte(Enter(s, InAtr), b)
    case InAtr => AtrByte(s, b)
    case WaitTpdu => if b == 0xff then PpsByte(Enter(s, InPpsReq), b) else TpduByte(Enter(s, InTpdu), b)
    case WaitPpsRsp => if b == 0xff then PpsByte(Enter(s, InPpsRsp), b) else s
    case InTpdu => TpduByte(s, b)
    case InPpsReq => PpsByte(s, b)
    case InPpsRsp => PpsByte(s, b)
  }

  /** What an interruption reports of the unit it interrupts. */
  function Interrupted(s: Sniff): Sniff {
    match s.iso
    case InAtr => Say(s, AtrReport(s.atr.got, {Incomplete}))
    case InTpdu => Say(s, TpduReport(s.tpdu.got, {Incomplete}))
    case InPpsReq => Say(s, PpsReport(s.pps.got, {Incomplete}))
    case InPpsRsp => Say(s, PpsReport(s.pps.got, {Incomplete}))
    case _ => s
  }

  /** The waiting time ran out. */
  function OnTimeout(s: Sniff): Sniff {
    match s.iso
    case InAtr => Enter(Interrupted(s), WaitAtr)
    case InTpdu => Enter(Interrupted(s), WaitTpdu)
    case InPpsReq => Enter(Interrupted(s), WaitTpdu)
    case InPpsRsp => Enter(Interrupted(s), WaitTpdu)
    case _ => s
  }

  function OnResetAssert(s: Sniff): Sniff {
    Enter(Interrupted(s), Reset)
  }

  function OnResetDeassert(s: Sniff): Sniff {
    Enter(s, WaitAtr)
  }

  /** A run over the bytes of the wire. */
  function Run(s: Sniff, bytes: seq<byte>): Sniff
    decreases |bytes|
  {
    if bytes == [] then s else Run(OnByte(s, bytes[0]), bytes[1..])
  }

  lemma {:induction false} RunConcat(s: Sniff, a: seq<byte>, b: seq<byte>)
    ensures Run(s, a + b) == Run(Run(s, a), b)
    decreases |a|
  {
    if a == [] {
      assert a + b == b;
    } else {
      assert (a + b)[1..] == a[1..] + b;
      RunConcat(OnByte(s, a[0]), a[1..], b);
    }
  }

  lemma RunJoin(s: Sniff, a: seq<byte>, b: seq<byte>, mid: Sniff, end: Sniff)
    requires Run(s, a) == mid && Run(mid, b) == end
    ensures Run(s, a + b) == end
  {
    RunConcat(s, a, b);
  }
}
