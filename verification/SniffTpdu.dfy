/** The sniffer inverts the T=0 transmission protocol: from the bytes of an exchange it recovers header,
    data and status word. */
module SniffTpdu {
  import opened Iso7816
  import opened SniffSpec

  /** What the card's procedure bytes make of the data phase (section 10.3.3 of ISO/IEC 7816-3:2006): it asks
      for time, for all remaining bytes, or for one. */
  datatype Phase = Null | All(run: seq<byte>) | One(b: byte)

  datatype Exchange = Exchange(header: seq<byte>, phases: seq<Phase>, sw1: byte, sw2: byte)

  function PhaseWire(ins: byte, p: Phase): seq<byte> {
    match p
    case Null => [0x60]
    case All(run) => [ins] + run
    case One(b) => [!ins, b]
  }

  function PhaseData(p: Phase): seq<byte> {
    match p
    case Null => []
    case All(run) => run
    case One(b) => [b]
  }

  function PhasesWire(ins: byte, ps: seq<Phase>): seq<byte> {
    if ps == [] then [] else PhaseWire(ins, ps[0]) + PhasesWire(ins, ps[1..])
  }

  function PhasesData(ps: seq<Phase>): seq<byte> {
    if ps == [] then [] else PhaseData(ps[0]) + PhasesData(ps[1..])
  }

  /** Bytes in the order in which they cross the interface, procedure bytes included. */
  function Wire(x: Exchange): seq<byte>
    requires |x.header| == 5
  {
    x.header + PhasesWire(x.header[1], x.phases) + [x.sw1, x.sw2]
  }

  /** Header, data, status word. */
  function Packet(x: Exchange): seq<byte> {
    x.header + PhasesData(x.phases) + [x.sw1, x.sw2]
  }

  /** `left` data bytes may still come: one at a time, or all of them in one run. */
  predicate PhaseOk(p: Phase, left: int) {
    match p
    case Null => true
    case All(run) => |run| == left > 0
    case One(_) => left > 0
  }

  predicate PhasesOk(ps: seq<Phase>, left: int) {
    ps != [] ==> PhaseOk(ps[0], left) && PhasesOk(ps[1..], left - |PhaseData(ps[0])|)
  }

  predicate WellFormed(x: Exchange) {
    && |x.header| == 5 && x.header[0] != 0xff && !StatusByte(x.header[1])
    && PhasesOk(x.phases, DataBytes(x.header[4]))
    && StatusByte(x.sw1) && x.sw1 != 0x60
  }

  /** The sniffer's reading of P3 and of SW1 is the standard's. */
  lemma ReadsAlike(b: byte)
    ensures DataLength(b) == DataBytes(b) && (IsSw1(b) <==> StatusByte(b))
  {
  }

  /** Neither INS nor its complement can be taken for a status or NULL byte, or for each other. */
  lemma ProcedureBytesDiffer(ins: byte)
    requires !StatusByte(ins)
    ensures ins != 0x60 && !ins != 0x60 && ins != !ins && !StatusByte(!ins)
  {
    assert ins & 0x01 != (!ins) & 0x01;
  }

  /** Waiting for a procedure byte after the header and `data`. */
  ghost predicate AtProcedure(s: Sniff, header: seq<byte>, data: seq<byte>) {
    && s.iso == InTpdu && !s.atr.convert && s.tpdu == Tpdu(Procedure, header + data)
    && |header| == 5 && |data| <= DataBytes(header[4]) && !StatusByte(header[1])
  }

  lemma HeaderRun(s: Sniff, header: seq<byte>)
    requires s.iso == WaitTpdu && !s.atr.convert && s.tpdu == Tpdu(CLA, [])
    requires |header| == 5 && header[0] != 0xff && !StatusByte(header[1])
    ensures Run(s, header) == s.(iso := InTpdu, tpdu := Tpdu(Procedure, header))
  {
    var s2 := s.(iso := InTpdu, tpdu := Tpdu(P1, header[..2]));
    assert Run(s, header[..2]) == s2 by {
      var s1 := s.(iso := InTpdu, tpdu := Tpdu(INS, header[..1]));
      assert OnByte(s, header[0]) == s1;
      assert header[..2][1..] == [header[1]] && header[..1] + [header[1]] == header[..2];
      RunOne(s1, header[1]);
    }
    ParametersRun(s2, header);
    assert header[..2] + header[2..] == header;
    RunJoin(s, header[..2], header[2..], s2, s.(iso := InTpdu, tpdu := Tpdu(Procedure, header)));
  }

  lemma ParametersRun(s: Sniff, header: seq<byte>)
    requires |header| == 5 && s.iso == InTpdu && !s.atr.convert && s.tpdu == Tpdu(P1, header[..2])
    ensures Run(s, header[2..]) == s.(tpdu := Tpdu(Procedure, header))
  {
    var s1 := s.(tpdu := Tpdu(P2, header[..3]));
    var s2 := s.(tpdu := Tpdu(P3, header[..4]));
    assert header[..2] + [header[2]] == header[..3] && header[..3] + [header[3]] == header[..4];
    assert header[..4] + [header[4]] == header;
    assert OnByte(s, header[2]) == s1 && OnByte(s1, header[3]) == s2;
    assert header[2..][1..] == header[3..] && header[3..][1..] == header[4..] && header[4..] == [header[4]];
    RunOne(s2, header[4]);
  }

  /** A run of data bytes after an INS byte. */
  lemma {:induction false} DataRun(s: Sniff, run: seq<byte>)
    requires s.iso == InTpdu && !s.atr.convert && s.tpdu.state == DataRemaining && |s.tpdu.got| >= 5
    requires |run| > 0 && |s.tpdu.got| + |run| == 5 + DataBytes(s.tpdu.got[4])
    ensures Run(s, run) == s.(tpdu := Tpdu(Procedure, s.tpdu.got + run))
    decreases |run|
  {
    var s1 := OnByte(s, run[0]);
    if |run| == 1 {
      assert run == [run[0]];
    } else {
      DataRun(s1, run[1..]);
      assert s.tpdu.got + [run[0]] + run[1..] == s.tpdu.got + run;
    }
  }

  /** One byte. */
  lemma RunOne(s: Sniff, b: byte)
    ensures Run(s, [b]) == OnByte(s, b)
  {
    assert [b][1..] == [];
  }

  lemma NullRun(s: Sniff, header: seq<byte>, data: seq<byte>)
    requires AtProcedure(s, header, data)
    ensures Run(s, [0x60]) == s
  {
    RunOne(s, 0x60);
  }

  lemma OneRun(s: Sniff, header: seq<byte>, data: seq<byte>, b: byte)
    requires AtProcedure(s, header, data) && |data| < DataBytes(header[4])
    ensures Run(s, [!header[1], b]) == s.(tpdu := Tpdu(Procedure, header + (data + [b])))
  {
    ProcedureBytesDiffer(header[1]);
    var s1 := OnByte(s, !header[1]);
    assert s1 == Expect(s, DataSingle);
    assert [!header[1], b][1..] == [b];
    RunOne(s1, b);
    assert header + data + [b] == header + (data + [b]);
  }

  lemma AllRun(s: Sniff, header: seq<byte>, data: seq<byte>, run: seq<byte>)
    requires AtProcedure(s, header, data) && |run| == DataBytes(header[4]) - |data| > 0
    ensures Run(s, [header[1]] + run) == s.(tpdu := Tpdu(Procedure, header + (data + run)))
  {
    ProcedureBytesDiffer(header[1]);
    var s1 := OnByte(s, header[1]);
    assert s1 == Expect(s, DataRemaining);
    assert ([header[1]] + run)[1..] == run && header + data + run == header + (data + run);
    DataRun(s1, run);
  }

  lemma PhaseRun(s: Sniff, header: seq<byte>, data: seq<byte>, p: Phase)
    requires AtProcedure(s, header, data) && PhaseOk(p, DataBytes(header[4]) - |data|)
    ensures Run(s, PhaseWire(header[1], p)) == s.(tpdu := Tpdu(Procedure, header + (data + PhaseData(p))))
    ensures |data + PhaseData(p)| <= DataBytes(header[4])
  {
    match p
    case Null =>
      NullRun(s, header, data);
      assert data + [] == data;
    case All(run) => AllRun(s, header, data, run);
    case One(b) => OneRun(s, header, data, b);
  }

  lemma DataSplit(data: seq<byte>, ps: seq<Phase>)
    requires ps != []
    ensures (data + PhaseData(ps[0])) + PhasesData(ps[1..]) == data + PhasesData(ps)
  {
  }

  lemma {:induction false} PhasesRun(s: Sniff, header: seq<byte>, data: seq<byte>, ps: seq<Phase>)
    requires AtProcedure(s, header, data) && PhasesOk(ps, DataBytes(header[4]) - |data|)
    ensures Run(s, PhasesWire(header[1], ps)) == s.(tpdu := Tpdu(Procedure, header + (data + PhasesData(ps))))
    ensures |data + PhasesData(ps)| <= DataBytes(header[4])
    decreases |ps|
  {
    if ps == [] {
      assert data + PhasesData(ps) == data;
    } else {
      var w, rest := PhaseWire(header[1], ps[0]), PhasesWire(header[1], ps[1..]);
      var data1 := data + PhaseData(ps[0]);
      var s1 := s.(tpdu := Tpdu(Procedure, header + data1));
      var s2 := s.(tpdu := Tpdu(Procedure, header + (data + PhasesData(ps))));
      PhaseRun(s, header, data, ps[0]);
      PhasesRun(s1, header, data1, ps[1..]);
      DataSplit(data, ps);
      RunJoin(s, w, rest, s1, s2);
    }
  }

  /** For every header, every interleaving of NULL bytes, acknowledged runs and single bytes, and every status
      word: one report, with exactly the procedure bytes removed, and the sniffer waits for the next TPDU. */
  lemma ExchangeRecovered(s: Sniff, x: Exchange)
    requires s.iso == WaitTpdu && !s.atr.convert && s.tpdu == Tpdu(CLA, []) && WellFormed(x)
    ensures Run(s, Wire(x)) == Say(s, TpduReport(Packet(x), {}))
  {
    var h, w, d := x.header, PhasesWire(x.header[1], x.phases), PhasesData(x.phases);
    var s1 := s.(iso := InTpdu, tpdu := Tpdu(Procedure, h));
    var s2 := s.(iso := InTpdu, tpdu := Tpdu(Procedure, h + d));
    HeaderRun(s, h);
    assert h + [] == h && [] + d == d;
    PhasesRun(s1, h, [], x.phases);
    RunJoin(s, h, w, s1, s2);
    StatusRun(s, h, d, x.sw1, x.sw2);
    RunJoin(s, h + w, [x.sw1, x.sw2], s2, Say(s, TpduReport(Packet(x), {})));
  }

  lemma StatusRun(s: Sniff, h: seq<byte>, d: seq<byte>, sw1: byte, sw2: byte)
    requires s.iso == WaitTpdu && !s.atr.convert && s.tpdu == Tpdu(CLA, [])
    requires |h| == 5 && |d| <= DataBytes(h[4]) && !StatusByte(h[1]) && StatusByte(sw1) && sw1 != 0x60
    ensures Run(s.(iso := InTpdu, tpdu := Tpdu(Procedure, h + d)), [sw1, sw2])
      == Say(s, TpduReport(h + d + [sw1, sw2], {}))
  {
    var s2 := s.(iso := InTpdu, tpdu := Tpdu(Procedure, h + d));
    var s3 := s2.(tpdu := Tpdu(SW2, h + d + [sw1]));
    ProcedureBytesDiffer(h[1]);
    assert (h + d)[1] == h[1];
    assert OnByte(s2, sw1) == s3;
    assert h + d + [sw1] + [sw2] == h + d + [sw1, sw2];
    assert [sw1, sw2][1..] == [sw2];
    RunOne(s3, sw2);
  }

  /** P3 = 0 stands for 256 bytes: after the acknowledgement so many are collected, and at none before the last another
      procedure byte is expected. */
  lemma ZeroIs256(s: Sniff, header: seq<byte>, run: seq<byte>)
    requires AtProcedure(s, header, []) && header[4] == 0 && |run| == 256
    ensures Run(s, [header[1]] + run) == s.(tpdu := Tpdu(Procedure, header + run))
    ensures forall k :: 0 <= k < 256 ==>
      Run(s, [header[1]] + run[..k]) == s.(tpdu := Tpdu(DataRemaining, header + run[..k]))
  {
    AllRun(s, header, [], run);
    assert [] + run == run && header + [] == header;
    forall k | 0 <= k < 256
      ensures Run(s, [header[1]] + run[..k]) == s.(tpdu := Tpdu(DataRemaining, header + run[..k]))
    {
      AckRun(s, header, []);
      DataPrefix(s.(tpdu := Tpdu(DataRemaining, header)), run[..k]);
      assert ([header[1]] + run[..k])[1..] == run[..k];
    }
  }

  /** An acknowledgement of all data bytes. */
  lemma AckRun(s: Sniff, header: seq<byte>, data: seq<byte>)
    requires AtProcedure(s, header, data)
    ensures OnByte(s, header[1]) == s.(tpdu := Tpdu(DataRemaining, header + data))
  {
    ProcedureBytesDiffer(header[1]);
  }

  /** Part of a run of data bytes. */
  lemma {:induction false} DataPrefix(s: Sniff, run: seq<byte>)
    requires s.iso == InTpdu && !s.atr.convert && s.tpdu.state == DataRemaining && |s.tpdu.got| >= 5
    requires |s.tpdu.got| + |run| < 5 + DataBytes(s.tpdu.got[4])
    ensures Run(s, run) == s.(tpdu := Tpdu(DataRemaining, s.tpdu.got + run))
    decreases |run|
  {
    if run == [] {
      assert s.tpdu.got + run == s.tpdu.got;
    } else {
      ReadsAlike(s.tpdu.got[4]);
      DataPrefix(OnByte(s, run[0]), run[1..]);
      assert s.tpdu.got + [run[0]] + run[1..] == s.tpdu.got + run;
    }
  }

  lemma AtrFieldsLeavePacket(s: Sniff, b: byte, rank: nat)
    ensures Settle(s, rank).tpdu in {s.tpdu, Tpdu(CLA, [])}
    ensures FormatByte(s, b).tpdu in {s.tpdu, Tpdu(CLA, [])}
    ensures TcByte(s, b).tpdu in {s.tpdu, Tpdu(CLA, [])}
    ensures HistByte(s).tpdu in {s.tpdu, Tpdu(CLA, [])}
  {
  }

  lemma AtrLeavesPacket(s: Sniff, b: byte)
    ensures AtrByte(s, b).tpdu in {s.tpdu, Tpdu(CLA, [])}
  {
    var s1 := s.(atr := s.atr.(got := s.atr.got + [b]));
    match s.atr.state
    case TS => assert TsByte(s1, b).tpdu == s.tpdu;
    case TCK => assert TckByte(s1).tpdu in {s.tpdu, Tpdu(CLA, [])};
    case TA => AtrFieldsLeavePacket(s1, b, 1);
    case TB => AtrFieldsLeavePacket(s1, b, 2);
    case _ => AtrFieldsLeavePacket(s1, b, 0);
  }

  lemma PpsLeavesPacket(s: Sniff, b: byte)
    ensures PpsByte(s, b).tpdu in {s.tpdu, Tpdu(CLA, [])}
  {
  }

  lemma AtrBounded(s: Sniff, b: byte)
    requires |s.atr.got| <= 33
    ensures |AtrByte(s, b).atr.got| <= 33
  {
    var s1 := s.(atr := s.atr.(got := s.atr.got + [b]));
    match s.atr.state
    case TS => assert TsByte(s1, b).atr.got in {s1.atr.got, []};
    case TCK => assert TckByte(s1).atr.got == s1.atr.got;
    case TA => SettleKeepsBytes(s1, 1);
    case TB => SettleKeepsBytes(s1, 2);
    case TC => TcKeepsBytes(s1, b);
    case Hist => HistKeepsBytes(s1);
    case _ => FormatKeepsBytes(s1, b);
  }

  lemma SettleKeepsBytes(s: Sniff, rank: nat)
    ensures Settle(s, rank).atr.got == s.atr.got
  {
  }

  lemma FormatKeepsBytes(s: Sniff, b: byte)
    ensures FormatByte(s, b).atr.got == s.atr.got
  {
    var a := if s.atr.state == T0 then s.atr.(hist := Low(b))
      else s.atr.(protocols := s.atr.protocols + {b & 0x0f});
    SettleKeepsBytes(s.(atr := a.(y := b & 0xf0, group := a.group + 1)), 0);
  }

  lemma TcKeepsBytes(s: Sniff, b: byte)
    ensures TcByte(s, b).atr.got == s.atr.got
  {
    var wi := if b == 0 then DEFAULT_WI else b as int;
    SettleKeepsBytes(if s.atr.group == 2 then s.(rate := UpdateWt(s.rate, wi, 0)) else s, 3);
  }

  lemma HistKeepsBytes(s: Sniff)
    ensures HistByte(s).atr.got == s.atr.got
  {
    SettleKeepsBytes(s.(atr := s.atr.(hist := if s.atr.hist > 0 then s.atr.hist - 1 else 0)), 4);
  }

  lemma PpsLeavesAtr(s: Sniff, b: byte)
    ensures PpsByte(s, b).atr == s.atr && TpduByte(s, b).atr == s.atr
  {
  }

  lemma AtrStaysBounded(s: Sniff, raw: byte)
    requires |s.atr.got| <= 33
    ensures |OnByte(s, raw).atr.got| <= 33
  {
    var b := if s.atr.convert then Convert(raw) else raw;
    AtrBounded(s, b);
    AtrBounded(Enter(s, InAtr), b);
    PpsLeavesAtr(s, b);
    PpsLeavesAtr(Enter(s, InPpsReq), b);
    PpsLeavesAtr(Enter(s, InPpsRsp), b);
    PpsLeavesAtr(Enter(s, InTpdu), b);
  }

  lemma TpduBounded(s: Sniff, b: byte)
    requires |s.tpdu.got| <= PACKET_SIZE
    ensures |TpduByte(s, b).tpdu.got| <= PACKET_SIZE
  {
  }

  lemma ByteBounded(s: Sniff, raw: byte)
    requires |s.tpdu.got| <= PACKET_SIZE
    ensures |OnByte(s, raw).tpdu.got| <= PACKET_SIZE
  {
    var b := if s.atr.convert then Convert(raw) else raw;
    match s.iso
    case Reset =>
    case WaitAtr => AtrLeavesPacket(Enter(s, InAtr), b);
    case InAtr => AtrLeavesPacket(s, b);
    case WaitTpdu =>
      PpsLeavesPacket(Enter(s, InPpsReq), b);
      TpduBounded(Enter(s, InTpdu), b);
    case WaitPpsRsp => PpsLeavesPacket(Enter(s, InPpsRsp), b);
    case InTpdu => TpduBounded(s, b);
    case _ => PpsLeavesPacket(s, b);
  }

  /** Whatever is received, neither the packet nor the ATR grows past its buffer. */
  lemma {:induction false} PacketBounded(s: Sniff, bytes: seq<byte>)
    requires |s.tpdu.got| <= 5 + 256 + 2 && |s.atr.got| <= 33
    ensures |Run(s, bytes).tpdu.got| <= 5 + 256 + 2 && |Run(s, bytes).atr.got| <= 33
    decreases |bytes|
  {
    if bytes != [] {
      ByteBounded(s, bytes[0]);
      AtrStaysBounded(s, bytes[0]);
      PacketBounded(OnByte(s, bytes[0]), bytes[1..]);
    }
  }
}
