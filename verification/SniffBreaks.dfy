/** Units that are cut off by a timeout or a reset, and units that are refused: what is reported of them, and that the
    next unit is taken as if nothing had happened. */
module SniffBreaks {
  import opened Iso7816
  import opened SniffSpec
  import T = SniffTpdu
  import A = AtrGrammar
  import SA = SniffAtr
  import SP = SniffPps

  /** Waiting for a command. */
  ghost predicate Ready(s: Sniff) {
    s.iso == WaitTpdu && !s.atr.convert && s.tpdu == Tpdu(CLA, [])
  }

  // ---------------------------------------------------------------- the beginning of an exchange

  /** The data among the first `k` bytes of a phase. */
  function KeptOf(p: T.Phase, k: nat): seq<byte> {
    match p
    case Null => []
    case All(run) => if 1 <= k <= |run| then run[..k - 1] else []
    case One(b) => []
  }

  function Kept(ins: byte, ps: seq<T.Phase>, k: nat): seq<byte>
    decreases |ps|
  {
    if ps == [] then []
    else
      var n := |T.PhaseWire(ins, ps[0])|;
      if k < n then KeptOf(ps[0], k) else T.PhaseData(ps[0]) + Kept(ins, ps[1..], k - n)
  }

  /** The first `k` bytes of an exchange without the procedure bytes among them. */
  function Recorded(x: T.Exchange, k: nat): seq<byte>
    requires |x.header| == 5
  {
    if k <= 5 then x.header[..k]
    else if k <= 5 + |T.PhasesWire(x.header[1], x.phases)| then x.header + Kept(x.header[1], x.phases, k - 5)
    else x.header + T.PhasesData(x.phases) + [x.sw1]
  }

  lemma PhasePrefix(s: Sniff, header: seq<byte>, data: seq<byte>, p: T.Phase, k: nat)
    requires T.AtProcedure(s, header, data) && T.PhaseOk(p, DataBytes(header[4]) - |data|)
    requires k < |T.PhaseWire(header[1], p)|
    ensures var r := Run(s, T.PhaseWire(header[1], p)[..k]);
      r == s.(tpdu := r.tpdu) && r.tpdu.got == header + (data + KeptOf(p, k))
  {
    var w := T.PhaseWire(header[1], p);
    assert data + [] == data;
    if k == 0 {
      assert w[..0] == [];
    } else if p.All? {
      AllPrefix(s, header, data, p.run[..k - 1]);
      assert w[..k] == [header[1]] + p.run[..k - 1];
    } else {
      T.ProcedureBytesDiffer(header[1]);
      assert w[..k] == [!header[1]];
      T.RunOne(s, !header[1]);
      assert OnByte(s, !header[1]) == Expect(s, DataSingle);
    }
  }

  lemma AllPrefix(s: Sniff, header: seq<byte>, data: seq<byte>, run: seq<byte>)
    requires T.AtProcedure(s, header, data) && |run| < DataBytes(header[4]) - |data|
    ensures Run(s, [header[1]] + run) == s.(tpdu := Tpdu(DataRemaining, header + (data + run)))
  {
    var s1 := s.(tpdu := Tpdu(DataRemaining, header + data));
    T.AckRun(s, header, data);
    T.DataPrefix(s1, run);
    FirstOff(s, [header[1]] + run, 1 + |run|);
    assert ([header[1]] + run)[..1 + |run|] == [header[1]] + run && ([header[1]] + run)[1..][..|run|] == run;
    Grouped(header, data, run);
  }

  /** Only the packet has changed: `kept` is added to it. */
  ghost predicate Collected(s: Sniff, header: seq<byte>, data: seq<byte>, kept: seq<byte>, r: Sniff) {
    r == s.(tpdu := r.tpdu) && r.tpdu.got == header + (data + kept)
  }

  lemma {:induction false} PhasesPrefix(s: Sniff, header: seq<byte>, data: seq<byte>, ps: seq<T.Phase>, k: nat)
    requires T.AtProcedure(s, header, data) && T.PhasesOk(ps, DataBytes(header[4]) - |data|)
    requires k <= |T.PhasesWire(header[1], ps)|
    ensures Collected(s, header, data, Kept(header[1], ps, k), Run(s, T.PhasesWire(header[1], ps)[..k]))
    decreases |ps|
  {
    var w := T.PhasesWire(header[1], ps);
    if ps == [] {
      assert w[..k] == [] && data + [] == data;
    } else if k < |T.PhaseWire(header[1], ps[0])| {
      PhasePrefix(s, header, data, ps[0], k);
      assert w[..k] == T.PhaseWire(header[1], ps[0])[..k];
    } else {
      var n, data1 := |T.PhaseWire(header[1], ps[0])|, data + T.PhaseData(ps[0]);
      var s1 := s.(tpdu := Tpdu(Procedure, header + data1));
      T.PhaseRun(s, header, data, ps[0]);
      PhasesPrefix(s1, header, data1, ps[1..], k - n);
      LaterPrefix(s, header, data, ps, k, s1);
    }
  }

  lemma LaterPrefix(s: Sniff, header: seq<byte>, data: seq<byte>, ps: seq<T.Phase>, k: nat, s1: Sniff)
    requires |header| == 5 && ps != [] && s1 == s.(tpdu := s1.tpdu)
    requires |T.PhaseWire(header[1], ps[0])| <= k <= |T.PhasesWire(header[1], ps)|
    requires Run(s, T.PhaseWire(header[1], ps[0])) == s1
    requires var n := |T.PhaseWire(header[1], ps[0])|;
      Collected(s1, header, data + T.PhaseData(ps[0]), Kept(header[1], ps[1..], k - n),
                Run(s1, T.PhasesWire(header[1], ps[1..])[..k - n]))
    ensures Collected(s, header, data, Kept(header[1], ps, k), Run(s, T.PhasesWire(header[1], ps)[..k]))
  {
    var first := T.PhaseWire(header[1], ps[0]);
    var rest := T.PhasesWire(header[1], ps[1..])[..k - |first|];
    RunJoin(s, first, rest, s1, Run(s1, rest));
    assert T.PhasesWire(header[1], ps)[..k] == first + rest;
    Grouped(data, T.PhaseData(ps[0]), Kept(header[1], ps[1..], k - |first|));
  }

  lemma Grouped(a: seq<byte>, b: seq<byte>, c: seq<byte>)
    ensures (a + b) + c == a + (b + c)
  {
  }

  lemma {:induction false} HeaderPrefix(s: Sniff, header: seq<byte>, k: nat)
    requires Ready(s) && |header| == 5 && header[0] != 0xff && !StatusByte(header[1]) && 0 < k < 5
    ensures Run(s, header[..k])
      == s.(iso := InTpdu,
            tpdu := Tpdu(if k == 1 then INS else if k == 2 then P1 else if k == 3 then P2 else P3, header[..k]))
    decreases k
  {
    T.ReadsAlike(header[1]);
    assert header[..k] == header[..k - 1] + [header[k - 1]];
    T.RunOne(Run(s, header[..k - 1]), header[k - 1]);
    RunConcat(s, header[..k - 1], [header[k - 1]]);
    if k == 1 {
      assert header[..0] == [] && header[..1] == [header[0]];
    } else {
      HeaderPrefix(s, header, k - 1);
    }
  }

  /** In the middle of an exchange the packet holds what came so far, without procedure bytes. */
  lemma ExchangePrefix(s: Sniff, x: T.Exchange, k: nat)
    requires Ready(s) && T.WellFormed(x) && 0 < k < |T.Wire(x)|
    ensures var r := Run(s, T.Wire(x)[..k]);
      r == s.(iso := InTpdu, tpdu := r.tpdu) && r.tpdu.got == Recorded(x, k)
  {
    var h, w := x.header, T.PhasesWire(x.header[1], x.phases);
    if k < 5 {
      assert T.Wire(x)[..k] == h[..k];
      HeaderPrefix(s, h, k);
    } else if k <= 5 + |w| {
      DataCutOff(s, x, k);
    } else {
      assert T.Wire(x)[..k] == (h + w) + [x.sw1];
      StatusCutOff(s, x);
    }
  }

  lemma DataCutOff(s: Sniff, x: T.Exchange, k: nat)
    requires Ready(s) && T.WellFormed(x) && 5 <= k <= 5 + |T.PhasesWire(x.header[1], x.phases)|
    ensures var r := Run(s, T.Wire(x)[..k]);
      r == s.(iso := InTpdu, tpdu := r.tpdu) && r.tpdu.got == Recorded(x, k)
  {
    var h, part := x.header, T.PhasesWire(x.header[1], x.phases)[..k - 5];
    AfterHeader(s, h, x.phases, k - 5);
    assert T.Wire(x)[..k] == h + part;
    RecordedData(x, k);
  }

  lemma AfterHeader(s: Sniff, h: seq<byte>, ps: seq<T.Phase>, k: nat)
    requires Ready(s) && |h| == 5 && h[0] != 0xff && !StatusByte(h[1]) && T.PhasesOk(ps, DataBytes(h[4]))
    requires k <= |T.PhasesWire(h[1], ps)|
    ensures var r := Run(s, h + T.PhasesWire(h[1], ps)[..k]);
      r == s.(iso := InTpdu, tpdu := r.tpdu) && r.tpdu.got == h + ([] + Kept(h[1], ps, k))
  {
    var s1, part := s.(iso := InTpdu, tpdu := Tpdu(Procedure, h)), T.PhasesWire(h[1], ps)[..k];
    T.HeaderRun(s, h);
    assert h + [] == h;
    PhasesPrefix(s1, h, [], ps, k);
    RunJoin(s, h, part, s1, Run(s1, part));
  }

  lemma RecordedData(x: T.Exchange, k: nat)
    requires |x.header| == 5 && 5 <= k <= 5 + |T.PhasesWire(x.header[1], x.phases)|
    ensures Recorded(x, k) == x.header + ([] + Kept(x.header[1], x.phases, k - 5))
  {
    var kept := Kept(x.header[1], x.phases, k - 5);
    assert [] + kept == kept;
    if k == 5 {
      KeptNone(x.header[1], x.phases);
      assert x.header[..5] == x.header + [];
    }
  }

  lemma KeptNone(ins: byte, ps: seq<T.Phase>)
    ensures Kept(ins, ps, 0) == []
  {
  }

  lemma StatusCutOff(s: Sniff, x: T.Exchange)
    requires Ready(s) && T.WellFormed(x)
    ensures var r := Run(s, x.header + T.PhasesWire(x.header[1], x.phases) + [x.sw1]);
      && r == s.(iso := InTpdu, tpdu := r.tpdu)
      && r.tpdu.got == x.header + T.PhasesData(x.phases) + [x.sw1]
  {
    var h, w, d := x.header, T.PhasesWire(x.header[1], x.phases), T.PhasesData(x.phases);
    var s2 := s.(iso := InTpdu, tpdu := Tpdu(Procedure, h + d));
    UpToStatus(s, h, x.phases);
    T.ProcedureBytesDiffer(h[1]);
    T.ReadsAlike(x.sw1);
    assert (h + d)[1] == h[1];
    T.RunOne(s2, x.sw1);
    RunJoin(s, h + w, [x.sw1], s2, OnByte(s2, x.sw1));
  }

  /** Header and phases. */
  lemma UpToStatus(s: Sniff, h: seq<byte>, ps: seq<T.Phase>)
    requires Ready(s) && |h| == 5 && h[0] != 0xff && !StatusByte(h[1]) && T.PhasesOk(ps, DataBytes(h[4]))
    ensures Run(s, h + T.PhasesWire(h[1], ps))
      == s.(iso := InTpdu, tpdu := Tpdu(Procedure, h + T.PhasesData(ps)))
    ensures |T.PhasesData(ps)| <= DataBytes(h[4])
  {
    var s1 := s.(iso := InTpdu, tpdu := Tpdu(Procedure, h));
    T.HeaderRun(s, h);
    FromProcedure(s1, h, ps);
    RunJoin(s, h, T.PhasesWire(h[1], ps), s1, s1.(tpdu := Tpdu(Procedure, h + T.PhasesData(ps))));
  }

  lemma FromProcedure(s: Sniff, h: seq<byte>, ps: seq<T.Phase>)
    requires s.iso == InTpdu && !s.atr.convert && s.tpdu == Tpdu(Procedure, h)
    requires |h| == 5 && !StatusByte(h[1]) && T.PhasesOk(ps, DataBytes(h[4]))
    ensures Run(s, T.PhasesWire(h[1], ps)) == s.(tpdu := Tpdu(Procedure, h + T.PhasesData(ps)))
    ensures |T.PhasesData(ps)| <= DataBytes(h[4])
  {
    assert h + [] == h && [] + T.PhasesData(ps) == T.PhasesData(ps);
    T.PhasesRun(s, h, [], ps);
  }

  // ---------------------------------------------------------------- exchanges cut off

  /** A timeout anywhere in an exchange: what came of it is reported as incomplete, and the next one is recovered. */
  lemma TpduTimeout(s: Sniff, x: T.Exchange, k: nat, next: T.Exchange)
    requires Ready(s) && T.WellFormed(x) && 0 < k < |T.Wire(x)| && T.WellFormed(next)
    ensures Run(OnTimeout(Run(s, T.Wire(x)[..k])), T.Wire(next))
      == Say(Say(s, TpduReport(Recorded(x, k), {Incomplete})), TpduReport(T.Packet(next), {}))
  {
    ExchangePrefix(s, x, k);
    var s1 := Say(s, TpduReport(Recorded(x, k), {Incomplete}));
    assert OnTimeout(Run(s, T.Wire(x)[..k])) == s1;
    T.ExchangeRecovered(s1, next);
  }

  // ---------------------------------------------------------------- exchanges refused

  /** An INS that looks like SW1: the first byte is reported as malformed. */
  lemma RefusedIns(s: Sniff, cla: byte, ins: byte)
    requires Ready(s) && cla != 0xff && StatusByte(ins)
    ensures Run(s, [cla, ins]) == Say(s, TpduReport([cla], {Malformed}))
  {
    var s1 := s.(iso := InTpdu, tpdu := Tpdu(INS, [cla]));
    T.ReadsAlike(ins);
    assert [] + [cla] == [cla];
    assert OnByte(s, cla) == s1;
    assert [cla, ins][1..] == [ins];
    T.RunOne(s1, ins);
  }

  /** A byte that is no procedure byte where one is expected: what came before it is reported as malformed. */
  lemma RefusedProcedure(s: Sniff, h: seq<byte>, ps: seq<T.Phase>, b: byte)
    requires Ready(s) && |h| == 5 && h[0] != 0xff && !StatusByte(h[1]) && T.PhasesOk(ps, DataBytes(h[4]))
    requires b != 0x60 && b != h[1] && b != !h[1] && !StatusByte(b)
    ensures Run(s, h + T.PhasesWire(h[1], ps) + [b]) == Say(s, TpduReport(h + T.PhasesData(ps), {Malformed}))
  {
    var s1 := s.(iso := InTpdu, tpdu := Tpdu(Procedure, h + T.PhasesData(ps)));
    UpToStatus(s, h, ps);
    T.ReadsAlike(b);
    assert (h + T.PhasesData(ps))[1] == h[1];
    T.RunOne(s1, b);
    RunJoin(s, h + T.PhasesWire(h[1], ps), [b], s1, OnByte(s1, b));
  }

  // ---------------------------------------------------------------- PPS

  /** The message goes on, and `bytes` are added to it. */
  predicate Held(s: Sniff, bytes: seq<byte>, r: Sniff) {
    r == s.(pps := r.pps) && r.pps.got == s.pps.got + bytes
  }

  lemma HeldAfter(s: Sniff, b: byte, s1: Sniff, bytes: seq<byte>, r: Sniff)
    requires s1 == s.(pps := s1.pps) && s1.pps.got == s.pps.got + [b] && Held(s1, bytes, r)
    ensures Held(s, [b] + bytes, r)
  {
    assert s.pps.got + [b] + bytes == s.pps.got + ([b] + bytes);
  }

  lemma {:induction false} PpsPrefixFrom(s: Sniff, m: PpsMsg, f: PpsField, k: nat)
    requires SP.InPps(s) && s.pps.state == f && f !in {PPSS, PPS0, PpsEnd}
    requires |s.pps.got| >= 2 && s.pps.got[1] == m.pps0 && k < |PpsFrom(m, f)|
    ensures Held(s, PpsFrom(m, f)[..k], Run(s, PpsFrom(m, f)[..k]))
    decreases PpsRank(f)
  {
    var w := PpsFrom(m, f);
    if k == 0 {
      assert w[..0] == [] && s.pps.got + [] == s.pps.got;
    } else {
      var next, more := NextPps(f, m.pps0), w[1..][..k - 1];
      var s1 := s.(pps := Pps(next, s.pps.got + [w[0]]));
      NextHeld(s, m, f);
      PpsPrefixFrom(s1, m, next, k - 1);
      FirstOff(s, w, k);
      HeldAfter(s, w[0], s1, more, Run(s1, more));
      assert w[..k] == [w[0]] + more;
    }
  }

  lemma NextHeld(s: Sniff, m: PpsMsg, f: PpsField)
    requires SP.InPps(s) && s.pps.state == f && f !in {PPSS, PPS0, PpsEnd}
    requires |s.pps.got| >= 2 && s.pps.got[1] == m.pps0 && |PpsFrom(m, f)| > 1
    ensures var w, next := PpsFrom(m, f), NextPps(f, m.pps0); var s1 := s.(pps := Pps(next, s.pps.got + [w[0]]));
      && w[1..] == PpsFrom(m, next) && next !in {PPSS, PPS0, PpsEnd} && OnByte(s, w[0]) == s1
      && s1.pps.got[1] == m.pps0
  {
    SP.PpsStep(s, PpsFrom(m, f)[0], NextPps(f, m.pps0));
  }

  /** In the middle of a PPS message it is held as far as it came. */
  lemma PpsPrefix(s: Sniff, m: PpsMsg, k: nat)
    requires s.iso in {WaitTpdu, WaitPpsRsp} && !s.atr.convert && 0 < k < |PpsBytes(m)|
    ensures var r := Run(s, PpsBytes(m)[..k]);
      && r == s.(iso := if s.iso == WaitTpdu then InPpsReq else InPpsRsp, pps := r.pps)
      && r.pps.got == PpsBytes(m)[..k]
  {
    PpsHead(s, m);
    if k == 1 {
      assert PpsBytes(m)[..1] == [0xff];
      T.RunOne(s, 0xff);
    } else {
      var f, iso := NextPps(PPS0, m.pps0), if s.iso == WaitTpdu then InPpsReq else InPpsRsp;
      var s2 := s.(iso := iso, pps := Pps(f, [0xff, m.pps0]));
      var part := PpsFrom(m, f)[..k - 2];
      SplitHead(m, k);
      RunTwoBytes(s, 0xff, m.pps0);
      PpsPrefixFrom(s2, m, f, k - 2);
      RunJoin(s, [0xff, m.pps0], part, s2, Run(s2, part));
    }
  }

  lemma SplitHead(m: PpsMsg, k: nat)
    requires 2 <= k < |PpsBytes(m)|
    ensures var f := NextPps(PPS0, m.pps0);
      && f !in {PPSS, PPS0, PpsEnd} && k - 2 < |PpsFrom(m, f)|
      && PpsBytes(m)[..k] == [0xff, m.pps0] + PpsFrom(m, f)[..k - 2]
  {
    var f := NextPps(PPS0, m.pps0);
    PpsFromStart(m);
    assert PpsBytes(m) == [0xff, m.pps0] + PpsFrom(m, f);
  }

  lemma PpsHead(s: Sniff, m: PpsMsg)
    requires s.iso in {WaitTpdu, WaitPpsRsp} && !s.atr.convert
    ensures var iso := if s.iso == WaitTpdu then InPpsReq else InPpsRsp;
      var s1 := s.(iso := iso, pps := Pps(PPS0, [0xff]));
      && OnByte(s, 0xff) == s1
      && OnByte(s1, m.pps0) == s1.(pps := Pps(NextPps(PPS0, m.pps0), [0xff, m.pps0]))
  {
    var none: seq<byte> := [];
    assert none + [0xff] == [0xff] && [0xff] + [m.pps0] == [0xff, m.pps0];
  }

  lemma RunTwoBytes(s: Sniff, b: byte, b': byte)
    ensures Run(s, [b, b']) == OnByte(OnByte(s, b), b')
  {
    assert [b, b'][1..] == [b'];
    T.RunOne(OnByte(s, b), b');
  }

  /** A timeout anywhere in a PPS request: what came of it is reported as incomplete, and an exchange is recovered. */
  lemma RequestTimeout(s: Sniff, m: PpsMsg, k: nat, next: T.Exchange)
    requires Ready(s) && 0 < k < |PpsBytes(m)| && T.WellFormed(next)
    ensures var r := Run(OnTimeout(Run(s, PpsBytes(m)[..k])), T.Wire(next));
      && Ready(r) && r.rate == s.rate
      && r.reports == s.reports + [PpsReport(PpsBytes(m)[..k], {Incomplete}), TpduReport(T.Packet(next), {})]
  {
    var r := Run(s, PpsBytes(m)[..k]);
    PpsPrefix(s, m, k);
    T.ExchangeRecovered(OnTimeout(r), next);
    TwoMore(s.reports, PpsReport(PpsBytes(m)[..k], {Incomplete}), TpduReport(T.Packet(next), {}));
  }

  lemma TwoMore(reports: seq<Report>, a: Report, b: Report)
    ensures reports + [a] + [b] == reports + [a, b]
  {
  }

  lemma ThreeMore(reports: seq<Report>, a: Report, b: Report, c: Report)
    ensures reports + [a] + [b] + [c] == reports + [a, b, c]
  {
  }

  /** Between request and response nothing but 0xff is taken notice of, not even a timeout. */
  lemma {:induction false} Noise(s: Sniff, noise: seq<byte>)
    requires s.iso == WaitPpsRsp && !s.atr.convert && 0xff !in noise
    ensures Run(s, noise) == s && OnTimeout(s) == s
    decreases |noise|
  {
    if noise != [] {
      assert noise[0] in noise && forall b <- noise[1..] :: b in noise;
      Noise(s, noise[1..]);
    }
  }

  /** The sniffer after a valid request. */
  function Requested(s: Sniff, m: PpsMsg): Sniff {
    s.(iso := WaitPpsRsp, pps := Pps(PpsEnd, PpsBytes(m)), reports := s.reports + [PpsReport(PpsBytes(m), {})])
  }

  lemma RequestHeard(s: Sniff, m: PpsMsg, noise: seq<byte>)
    requires Ready(s) && PpsValid(m) && 0xff !in noise
    ensures Run(s, PpsBytes(m) + noise) == Requested(s, m)
  {
    SP.RequestRun(s, m);
    Noise(Requested(s, m), noise);
    RunJoin(s, PpsBytes(m), noise, Requested(s, m), Requested(s, m));
  }

  /** A timeout anywhere in the response: no rate changes, and an exchange is recovered. */
  lemma ResponseTimeout(s: Sniff, m: PpsMsg, noise: seq<byte>, m': PpsMsg, k: nat, next: T.Exchange)
    requires Ready(s) && PpsValid(m) && 0xff !in noise && 0 < k < |PpsBytes(m')| && T.WellFormed(next)
    ensures var r := Run(OnTimeout(Run(Run(s, PpsBytes(m) + noise), PpsBytes(m')[..k])), T.Wire(next));
      && Ready(r) && r.rate == s.rate
      && r.reports == s.reports + [PpsReport(PpsBytes(m), {}), PpsReport(PpsBytes(m')[..k], {Incomplete}),
                                   TpduReport(T.Packet(next), {})]
  {
    RequestHeard(s, m, noise);
    PpsPrefix(Requested(s, m), m', k);
    T.ExchangeRecovered(OnTimeout(Run(Requested(s, m), PpsBytes(m')[..k])), next);
    ThreeMore(s.reports, PpsReport(PpsBytes(m), {}), PpsReport(PpsBytes(m')[..k], {Incomplete}),
              TpduReport(T.Packet(next), {}));
  }

  /** What is asked for by a response: PPS1, or PPS0 where there is none. */
  function RateAsked(m: PpsMsg): byte {
    if m.pps0 & 0x10 != 0 then m.p1 else m.pps0
  }

  /** D in force after a response: of PPS1, or 1 without it; a reserved index leaves it. */
  function DAfter(d: nat, m: PpsMsg): nat {
    if m.pps0 & 0x10 == 0 then 1 else if Di(Low(m.p1)) != 0 then Di(Low(m.p1)) else d
  }

  /** A valid request and any response, in whatever it differs from the request: both are reported.  If the response is
      valid the rate is taken from it and reported; if it is not, it is flagged, and no rate changes. */
  lemma AnyResponse(s: Sniff, m: PpsMsg, noise: seq<byte>, m': PpsMsg)
    requires Ready(s) && PpsValid(m) && 0xff !in noise
    ensures var r := Run(Run(s, PpsBytes(m) + noise), PpsBytes(m')); var b, b' := PpsBytes(m), PpsBytes(m');
      && Ready(r)
      && (if PpsValid(m') then
            && r.reports == s.reports + [PpsReport(b, {}), PpsReport(b', {}), FidiReport(RateAsked(m'))]
            && r.rate.fidi == RatioAfter(s.rate.fidi, High(RateAsked(m')), Low(RateAsked(m')))
            && r.rate.wi == s.rate.wi && r.rate.d == DAfter(s.rate.d, m')
            && r.rate.wt == s.rate.wi * 960 * DAfter(s.rate.d, m')
          else r.reports == s.reports + [PpsReport(b, {}), PpsReport(b', {Checksum})] && r.rate == s.rate)
  {
    RequestHeard(s, m, noise);
    if PpsValid(m') {
      SP.ResponseRun(Requested(s, m), m');
      SP.RateByteOf(m');
      RateInNumbers(s.rate, m');
      TwoMoreAfter(s.reports, PpsReport(PpsBytes(m), {}), PpsReport(PpsBytes(m'), {}), FidiReport(RateAsked(m')));
    } else {
      WrongResponse(Requested(s, m), m');
      TwoMore(s.reports, PpsReport(PpsBytes(m), {}), PpsReport(PpsBytes(m'), {Checksum}));
    }
  }

  lemma TwoMoreAfter(reports: seq<Report>, a: Report, b: Report, c: Report)
    ensures reports + [a] + [b, c] == reports + [a, b, c]
  {
  }

  lemma WrongResponse(s: Sniff, m: PpsMsg)
    requires s.iso == WaitPpsRsp && !s.atr.convert && !PpsValid(m)
    ensures var r := Run(s, PpsBytes(m));
      Ready(r) && r.rate == s.rate && r.reports == s.reports + [PpsReport(PpsBytes(m), {Checksum})]
  {
    SP.PpsRun(s, m);
  }

  lemma RateInNumbers(r: Rate, m: PpsMsg)
    ensures var r1 := SP.RateAfterPps(r, m);
      && r1.fidi == RatioAfter(r.fidi, High(RateAsked(m)), Low(RateAsked(m)))
      && r1.wi == r.wi && r1.d == DAfter(r.d, m) && r1.wt == r.wi * 960 * DAfter(r.d, m)
  {
    UartRatioIs(r.fidi, High(RateAsked(m)), Low(RateAsked(m)));
    TablesAre(Low(m.p1));
    TablesAre(1);
  }

  // ---------------------------------------------------------------- ATR

  /** One more byte of an ATR that is not over. */
  lemma AtrCollects(s: Sniff, b: byte)
    requires s.iso == InAtr && !s.atr.convert && s.atr.state != TS && OnByte(s, b).iso == InAtr
    requires |s.atr.got| < 33
    ensures var s1 := OnByte(s, b);
      s1.atr.got == s.atr.got + [b] && !s1.atr.convert && s1.atr.state != TS
  {
    var s1 := s.(atr := s.atr.(got := s.atr.got + [b]));
    match s.atr.state
    case T0 => FormatCollects(s1, b);
    case TD => FormatCollects(s1, b);
    case TC => TcCollects(s1, b);
    case Hist => SettleCollects(s1.(atr := s1.atr.(hist := if s1.atr.hist > 0 then s1.atr.hist - 1 else 0)), 4);
    case TA => SettleCollects(s1, 1);
    case TB => SettleCollects(s1, 2);
    case _ =>
  }

  lemma SettleCollects(s: Sniff, rank: nat)
    requires s.iso == InAtr
    ensures var s1 := Settle(s, rank);
      s1.iso == InAtr ==> s1 == s.(atr := s.atr.(state := s1.atr.state)) && s1.atr.state != TS
  {
  }

  lemma FormatCollects(s: Sniff, b: byte)
    requires s.iso == InAtr && !s.atr.convert
    ensures var s1 := FormatByte(s, b);
      s1.iso == InAtr ==> s1.atr.got == s.atr.got && !s1.atr.convert && s1.atr.state != TS
  {
    var a := if s.atr.state == T0 then s.atr.(hist := Low(b))
      else s.atr.(protocols := s.atr.protocols + {b & 0x0f});
    SettleCollects(s.(atr := a.(y := b & 0xf0, group := a.group + 1)), 0);
  }

  lemma TcCollects(s: Sniff, b: byte)
    requires s.iso == InAtr && !s.atr.convert
    ensures var s1 := TcByte(s, b);
      s1.iso == InAtr ==> s1.atr.got == s.atr.got && !s1.atr.convert && s1.atr.state != TS
  {
    var wi := if b == 0 then DEFAULT_WI else b as int;
    SettleCollects(if s.atr.group == 2 then s.(rate := UpdateWt(s.rate, wi, 0)) else s, 3);
  }

  /** The ATR goes on, and `bytes` are added to it. */
  predicate Added(s: Sniff, bytes: seq<byte>, r: Sniff) {
    r.iso == InAtr && r.reports == s.reports && r.atr.got == s.atr.got + bytes && !r.atr.convert
  }

  lemma AddedAfter(s: Sniff, b: byte, s1: Sniff, bytes: seq<byte>, r: Sniff)
    requires s1.atr.got == s.atr.got + [b] && s1.reports == s.reports && Added(s1, bytes, r)
    ensures Added(s, [b] + bytes, r)
  {
    assert s.atr.got + [b] + bytes == s.atr.got + ([b] + bytes);
  }

  lemma {:induction false} AtrPrefix(s: Sniff, bytes: seq<byte>, k: nat)
    requires SA.Quiet(s, bytes, s.reports) && k < |bytes| && !s.atr.convert && s.atr.state != TS
    requires |s.atr.got| + |bytes| <= 33
    ensures Added(s, bytes[..k], Run(s, bytes[..k]))
    decreases k
  {
    if k == 0 {
      assert bytes[..0] == [] && s.atr.got + [] == s.atr.got;
    } else {
      var s1, more := OnByte(s, bytes[0]), bytes[1..][..k - 1];
      QuietNext(s, bytes);
      AtrCollects(s, bytes[0]);
      AtrPrefix(s1, bytes[1..], k - 1);
      FirstOff(s, bytes, k);
      AddedAfter(s, bytes[0], s1, more, Run(s1, more));
      assert bytes[..k] == [bytes[0]] + more;
    }
  }

  lemma QuietNext(s: Sniff, bytes: seq<byte>)
    requires SA.Quiet(s, bytes, s.reports) && |bytes| > 1
    ensures s.iso == InAtr
    ensures var s1 := OnByte(s, bytes[0]);
      s1.iso == InAtr && s1.reports == s.reports && SA.Quiet(s1, bytes[1..], s1.reports)
  {
  }

  lemma FirstOff(s: Sniff, bytes: seq<byte>, k: nat)
    requires 0 < k <= |bytes|
    ensures Run(s, bytes[..k]) == Run(OnByte(s, bytes[0]), bytes[1..][..k - 1])
  {
    assert bytes[..k][1..] == bytes[1..][..k - 1];
  }

  lemma AtrCutOff(s: Sniff, a: A.AtrTree, k: nat)
    requires s.iso == WaitAtr && !s.atr.convert && A.WellFormed(a) && 0 < k < |A.Encode(a)|
    ensures var r := Run(s, A.Encode(a)[..k]);
      r.iso == InAtr && r.reports == s.reports && r.atr.got == A.Encode(a)[..k] && !r.atr.convert
  {
    var e := A.Encode(a);
    SA.TsTaken(s, a.ts);
    SA.AtrQuiet(s, a);
    AtrPrefix(OnByte(s, a.ts), e[1..], k - 1);
    FirstOff(s, e, k);
    assert [a.ts] + e[1..][..k - 1] == e[..k];
  }

  /** The checksum flag of an ATR. */
  function AtrFlags(a: A.AtrTree): set<Flag>
    requires |a.hist| < 16
  {
    if a.tck.Yes? && XorAll(A.Encode(a)[1..]) != 0 then {Checksum} else {}
  }

  /** A timeout anywhere in an ATR: what came of it is reported as incomplete, and the next ATR is accepted. */
  lemma AtrTimeout(s: Sniff, a: A.AtrTree, k: nat, next: A.AtrTree)
    requires s.iso == WaitAtr && !s.atr.convert && A.WellFormed(a) && 0 < k < |A.Encode(a)| && A.WellFormed(next)
    ensures var r := Run(OnTimeout(Run(s, A.Encode(a)[..k])), A.Encode(next));
      && Ready(r)
      && r.reports == s.reports + [AtrReport(A.Encode(a)[..k], {Incomplete}), AtrReport(A.Encode(next), AtrFlags(next))]
  {
    AtrCutOff(s, a, k);
    SA.AtrAccepted(OnTimeout(Run(s, A.Encode(a)[..k])), next);
    TwoMore(s.reports, AtrReport(A.Encode(a)[..k], {Incomplete}), AtrReport(A.Encode(next), AtrFlags(next)));
  }

  /** An initial character that is none is reported as malformed, and the next ATR is accepted. */
  lemma RefusedTs(s: Sniff, ts: byte, next: A.AtrTree)
    requires s.iso == WaitAtr && !s.atr.convert && ts !in {0x23, 0x30, 0x3b, 0x3f} && A.WellFormed(next)
    ensures var r := Run(OnByte(s, ts), A.Encode(next));
      && Ready(r)
      && r.reports == s.reports + [AtrReport([ts], {Malformed}), AtrReport(A.Encode(next), AtrFlags(next))]
  {
    var none: seq<byte> := [];
    assert none + [ts] == [ts];
    SA.AtrAccepted(OnByte(s, ts), next);
    TwoMore(s.reports, AtrReport([ts], {Malformed}), AtrReport(A.Encode(next), AtrFlags(next)));
  }

  // ---------------------------------------------------------------- resets

  /** Nothing is heard while the reset line is asserted, and timeouts mean nothing between units. */
  lemma {:induction false} Deaf(s: Sniff, bytes: seq<byte>)
    requires s.iso == Reset
    ensures Run(s, bytes) == s
    decreases |bytes|
  {
    if bytes != [] {
      Deaf(s, bytes[1..]);
    }
  }

  lemma IdleTimeout(s: Sniff)
    requires s.iso in {Reset, WaitAtr, WaitTpdu, WaitPpsRsp}
    ensures OnTimeout(s) == s
  {
  }

  /** After a reset: the default rates, and the waiting integer of the ATR. */
  lemma FreshAtr(s: Sniff, bytes: seq<byte>, a: A.AtrTree)
    requires s.iso != Reset && !s.atr.convert && A.WellFormed(a)
    ensures var r := Run(OnResetDeassert(Run(OnResetAssert(s), bytes)), A.Encode(a)); var wi := A.WiOf(a.chain);
      && Ready(r) && r.rate == Rate(wi, 1, wi * 960 * 1, 372)
      && r.reports == Interrupted(s).reports + [AtrReport(A.Encode(a), AtrFlags(a))]
  {
    Deaf(OnResetAssert(s), bytes);
    SA.AtrAccepted(OnResetDeassert(OnResetAssert(s)), a);
    RateOfAtr(a.chain);
    UartRatioIs(s.rate.fidi, 1, 1);
  }

  lemma RateOfAtr(c: A.Chain)
    ensures SA.RateAfter(Rate(10, 1, 9600, 372), 1, 0, c) == Rate(A.WiOf(c), 1, A.WiOf(c) * 960 * 1, 372)
  {
  }

  /** A reset anywhere in an exchange, with noise while it lasts: what came is reported as incomplete, and the ATR is
      accepted, at the default rates. */
  lemma TpduReset(s: Sniff, x: T.Exchange, k: nat, noise: seq<byte>, a: A.AtrTree)
    requires Ready(s) && T.WellFormed(x) && 0 < k < |T.Wire(x)| && A.WellFormed(a)
    ensures var s1 := Run(OnResetAssert(Run(s, T.Wire(x)[..k])), noise);
      var r := Run(OnResetDeassert(s1), A.Encode(a)); var wi := A.WiOf(a.chain);
      && Ready(r) && r.rate == Rate(wi, 1, wi * 960 * 1, 372)
      && r.reports == s.reports + [TpduReport(Recorded(x, k), {Incomplete}), AtrReport(A.Encode(a), AtrFlags(a))]
  {
    ExchangePrefix(s, x, k);
    FreshAtr(Run(s, T.Wire(x)[..k]), noise, a);
    TwoMore(s.reports, TpduReport(Recorded(x, k), {Incomplete}), AtrReport(A.Encode(a), AtrFlags(a)));
  }

  /** The same in a PPS request, and in an ATR. */
  lemma PpsReset(s: Sniff, m: PpsMsg, k: nat, noise: seq<byte>, a: A.AtrTree)
    requires s.iso in {WaitTpdu, WaitPpsRsp} && !s.atr.convert && 0 < k < |PpsBytes(m)| && A.WellFormed(a)
    ensures var s1 := Run(OnResetAssert(Run(s, PpsBytes(m)[..k])), noise);
      var r := Run(OnResetDeassert(s1), A.Encode(a)); var wi := A.WiOf(a.chain);
      && Ready(r) && r.rate == Rate(wi, 1, wi * 960 * 1, 372)
      && r.reports == s.reports + [PpsReport(PpsBytes(m)[..k], {Incomplete}), AtrReport(A.Encode(a), AtrFlags(a))]
  {
    PpsPrefix(s, m, k);
    FreshAtr(Run(s, PpsBytes(m)[..k]), noise, a);
    TwoMore(s.reports, PpsReport(PpsBytes(m)[..k], {Incomplete}), AtrReport(A.Encode(a), AtrFlags(a)));
  }

  lemma AtrReset(s: Sniff, a: A.AtrTree, k: nat, noise: seq<byte>, next: A.AtrTree)
    requires s.iso == WaitAtr && !s.atr.convert && A.WellFormed(a) && 0 < k < |A.Encode(a)| && A.WellFormed(next)
    ensures var s1 := Run(OnResetAssert(Run(s, A.Encode(a)[..k])), noise);
      var r := Run(OnResetDeassert(s1), A.Encode(next)); var wi := A.WiOf(next.chain);
      && Ready(r) && r.rate == Rate(wi, 1, wi * 960 * 1, 372)
      && r.reports == s.reports + [AtrReport(A.Encode(a)[..k], {Incomplete}), AtrReport(A.Encode(next), AtrFlags(next))]
  {
    AtrCutOff(s, a, k);
    FreshAtr(Run(s, A.Encode(a)[..k]), noise, next);
    TwoMore(s.reports, AtrReport(A.Encode(a)[..k], {Incomplete}), AtrReport(A.Encode(next), AtrFlags(next)));
  }
}
