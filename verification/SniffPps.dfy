/** The sniffer follows a PPS exchange. */
module SniffPps {
  import opened Iso7816
  import opened SniffSpec

  ghost predicate InPps(s: Sniff) {
    s.iso in {InPpsReq, InPpsRsp} && !s.atr.convert
  }

  lemma PpsStep(s: Sniff, b: byte, next: PpsField)
    requires InPps(s) && s.pps.state !in {PPSS, PPS0, PpsEnd} && |s.pps.got| >= 2
    requires next == NextPps(s.pps.state, s.pps.got[1])
    ensures var s1 := s.(pps := Pps(next, s.pps.got + [b]));
      OnByte(s, b) == if next == PpsEnd then PpsDone(s1) else s1
  {
    assert (s.pps.got + [b])[1] == s.pps.got[1];
  }

  lemma {:induction false} PpsFromRun(s: Sniff, m: PpsMsg, f: PpsField)
    requires InPps(s) && s.pps.state == f && f !in {PPSS, PPS0, PpsEnd} && |s.pps.got| >= 2 && s.pps.got[1] == m.pps0
    ensures Run(s, PpsFrom(m, f)) == PpsDone(s.(pps := Pps(PpsEnd, s.pps.got + PpsFrom(m, f))))
    decreases PpsRank(f)
  {
    var w, next := PpsFrom(m, f), NextPps(f, m.pps0);
    var s1 := s.(pps := Pps(next, s.pps.got + [w[0]]));
    assert w[1..] == PpsFrom(m, next);
    assert s.pps.got + [w[0]] + w[1..] == s.pps.got + w;
    PpsStep(s, w[0], next);
    if f == PCK {
      assert w[1..] == [] && w == [w[0]];
    } else {
      PpsFromRun(s1, m, next);
    }
  }

  /** A message from its first byte on. */
  lemma PpsRun(s: Sniff, m: PpsMsg)
    requires s.iso in {WaitTpdu, WaitPpsRsp} && !s.atr.convert
    ensures var iso := if s.iso == WaitTpdu then InPpsReq else InPpsRsp;
      Run(s, PpsBytes(m)) == PpsDone(s.(iso := iso, pps := Pps(PpsEnd, PpsBytes(m))))
  {
    var b := PpsBytes(m);
    var s1 := OnByte(s, b[0]);
    var s2 := OnByte(s1, b[1]);
    var f := NextPps(PPS0, m.pps0);
    PpsFromStart(m);
    assert PpsFrom(m, PPSS) == [0xff] + PpsFrom(m, PPS0) && PpsFrom(m, PPS0) == [m.pps0] + PpsFrom(m, f);
    assert b[1..][1..] == PpsFrom(m, f) && b == [0xff, m.pps0] + PpsFrom(m, f);
    assert s1.pps == Pps(PPS0, [0xff]);
    assert [0xff] + [m.pps0] == [0xff, m.pps0];
    assert s2.pps == Pps(f, [0xff, m.pps0]);
    assert Run(s, b) == Run(s1, b[1..]) == Run(s2, b[1..][1..]);
    PpsFromRun(s2, m, f);
  }

  /** The rate the sniffer is at after a successful exchange. */
  function RateAfterPps(r: Rate, m: PpsMsg): Rate {
    if m.pps0 & 0x10 != 0 then UpdateWt(UpdateFidi(r, m.p1), 0, DI_TABLE[Low(m.p1)])
    else UpdateWt(UpdateFidi(r, m.pps0), 0, DI_TABLE[1])
  }

  /** A valid request answered by itself is reported twice, and changes the rates. */
  lemma ExchangeRun(s: Sniff, m: PpsMsg)
    requires s.iso == WaitTpdu && !s.atr.convert && PpsValid(m) && s.tpdu == Tpdu(CLA, [])
    ensures var b := PpsBytes(m); var r := Run(s, b + b);
      && r.iso == WaitTpdu && r.tpdu == Tpdu(CLA, []) && r.atr == s.atr
      && r.rate == RateAfterPps(s.rate, m)
      && r.reports == s.reports + [PpsReport(b, {}), PpsReport(b, {}), FidiReport(RateByte(b))]
  {
    var b := PpsBytes(m);
    var s1 := s.(iso := WaitPpsRsp, pps := Pps(PpsEnd, b), reports := s.reports + [PpsReport(b, {})]);
    RequestRun(s, m);
    ResponseRun(s1, m);
    var tail := [PpsReport(b, {}), FidiReport(RateByte(b))];
    var s2 := s1.(iso := WaitTpdu, rate := RateAfterPps(s.rate, m), reports := s1.reports + tail);
    RunJoin(s, b, b, s1, s2);
    ThreeReports(s.reports, PpsReport(b, {}), tail);
  }

  lemma ThreeReports(reports: seq<Report>, r: Report, tail: seq<Report>)
    requires |tail| == 2
    ensures reports + [r] + tail == reports + [r, tail[0], tail[1]]
  {
  }

  lemma RequestRun(s: Sniff, m: PpsMsg)
    requires s.iso == WaitTpdu && !s.atr.convert && PpsValid(m)
    ensures var b := PpsBytes(m);
      Run(s, b) == s.(iso := WaitPpsRsp, pps := Pps(PpsEnd, b), reports := s.reports + [PpsReport(b, {})])
  {
    PpsRun(s, m);
  }

  lemma ResponseRun(s: Sniff, m: PpsMsg)
    requires s.iso == WaitPpsRsp && !s.atr.convert && PpsValid(m)
    ensures var b := PpsBytes(m);
      Run(s, b) == s.(iso := WaitTpdu, pps := Pps(PpsEnd, b), tpdu := Tpdu(CLA, []), rate := RateAfterPps(s.rate, m),
                      reports := s.reports + [PpsReport(b, {}), FidiReport(RateByte(b))])
  {
    PpsRun(s, m);
    ResponseDone(s.(iso := InPpsRsp, pps := Pps(PpsEnd, PpsBytes(m))), m);
  }

  lemma RateByteOf(m: PpsMsg)
    ensures PpsBytes(m)[1] == m.pps0 && RateByte(PpsBytes(m)) == if m.pps0 & 0x10 != 0 then m.p1 else m.pps0
  {
    assert m.pps0 & 0x10 != 0 ==> PpsBytes(m)[2] == m.p1;
  }

  lemma ResponseDone(s: Sniff, m: PpsMsg)
    requires s.iso == InPpsRsp && PpsValid(m) && s.pps.got == PpsBytes(m)
    ensures var b := PpsBytes(m);
      PpsDone(s) == s.(iso := WaitTpdu, tpdu := Tpdu(CLA, []), rate := RateAfterPps(s.rate, m),
                       reports := s.reports + [PpsReport(b, {}), FidiReport(RateByte(b))])
  {
    var b := PpsBytes(m);
    RateByteOf(m);
    assert (s.reports + [PpsReport(b, {})]) + [FidiReport(RateByte(b))]
        == s.reports + [PpsReport(b, {}), FidiReport(RateByte(b))];
  }

  /** A request with a wrong check byte is reported as such; nothing else happens. */
  lemma BadRequestRun(s: Sniff, m: PpsMsg)
    requires s.iso == WaitTpdu && !s.atr.convert && !PpsValid(m) && s.tpdu == Tpdu(CLA, [])
    ensures var b := PpsBytes(m); var r := Run(s, b);
      r.iso == WaitTpdu && r.rate == s.rate && r.reports == s.reports + [PpsReport(b, {Checksum})]
  {
    PpsRun(s, m);
  }
}
