/** The emulator and the sniffer, told the same bytes, come to the same waiting time and baud rate ratio. */
module CrossRates {
  import opened Iso7816
  import A = AtrGrammar
  import S = SniffSpec
  import SA = SniffAtr
  import SP = SniffPps
  import B = SniffBreaks
  import W = WaitTime
  import E = EmuSpec
  import R = EmuRuns
  import EA = EmuAtr
  import EP = EmuPts

  // ---------------------------------------------------------------- after a reset

  /** When the reset line is released the emulator prepares its ATR at the default rate. */
  lemma EmulatorBoots(e: E.Emu)
    requires R.Inv(e) && e.iso == E.WaitRst && e.vcc && e.clocked && e.inReset
    ensures var e1 := E.OnRst(e, false);
      && EA.Booting(e1, e1) && e1.f == 1 && e1.d == 1 && e1.fidi == 372 && e1.atr == e.atr && e1.log == e.log
      && e1.toHost == e.toHost
  {
    R.RstKeeps(e, false);
    UartRatioIs(372, 1, 1);
  }

  /** After two etu it starts to send it. */
  lemma EmulatorStarts(e: E.Emu)
    requires R.Inv(e) && e.iso == E.WaitRst && e.vcc && e.clocked && e.inReset
    ensures var e1 := E.OnRst(e, false);
      && R.Inv(e1) && R.Inv(E.OnTimeout(e1))
      && EA.AtrAt(E.OnTimeout(E.OnTimeout(e1)), e1, 0)
  {
    var e1 := E.OnRst(e, false);
    EmulatorBoots(e);
    assert e1.timer == W.Start(2);
    R.TimeoutKeeps(e1);
    var e2 := E.OnTimeout(e1);
    assert e2.iso == E.WaitAtr && e2.timer == W.Wt(2, 1, true, 1);
    EA.BootStep(e2, e1, E.TimerRound);
  }

  /** And the sniffer waits for an ATR at the default rate, be it switched on in the middle of a reset. */
  lemma SnifferStarts(s: S.Sniff)
    requires s.iso == S.Reset ==> s.rate == S.Rate(10, 1, 9600, 372)
    ensures var s1 := S.OnResetDeassert(S.OnResetAssert(s));
      s1.iso == S.WaitAtr && s1.rate == S.Rate(10, 1, 9600, 372) && s1.atr == s.atr
  {
  }

  // ---------------------------------------------------------------- the ATR

  /** Same ratio in both UARTs, same waiting integer and waiting time. */
  predicate SameRates(e: E.Emu, s: S.Sniff) {
    e.fidi == s.rate.fidi && e.wi == s.rate.wi && e.wt == s.rate.wt
  }

  ghost predicate BothWait(e: E.Emu, s: S.Sniff) {
    && R.Inv(e) && e.iso == E.WaitTpdu
    && s.iso == S.WaitTpdu && s.tpdu == S.Tpdu(S.CLA, []) && !s.atr.convert
  }

  /** At the default rate, and about to send the ATR `a`. */
  predicate Fresh(e: E.Emu, a: A.AtrTree) {
    e.d == 1 && e.f == 1 && e.fidi == 372 && A.WellFormed(a) && e.atr == A.Encode(a)
  }

  predicate SnifferFresh(s: S.Sniff) {
    s.iso == S.WaitAtr && !s.atr.convert && s.rate == S.Rate(10, 1, 9600, 372)
  }

  /** Both waiting at the waiting integer of the ATR, which the emulator has sent since `e0`. */
  ghost predicate Agreed(e: E.Emu, e0: E.Emu, s: S.Sniff, a: A.AtrTree)
    requires A.WellFormed(a)
  {
    && BothWait(e, s) && SameRates(e, s) && R.Wire(e.log) == R.Wire(e0.log) + A.Encode(a) && e.toHost == e0.toHost
    && e.wi == A.WiOf(a.chain) && e.wt == e.wi * 960 * 1
    && e.d == 1 && e.f == 1 && e.fidi == 372 && s.rate.d == 1
  }

  lemma EmulatorSide(e: E.Emu, e0: E.Emu, a: A.AtrTree)
    requires Fresh(e0, a) && EA.AtrAt(e, e0, |e0.atr| + 1)
    ensures R.Wire(e.log) == R.Wire(e0.log) + A.Encode(a) && e.toHost == e0.toHost && e.iso == E.WaitTpdu
    ensures e.wi == A.WiOf(a.chain) && e.wt == e.wi * 960 * 1 && e.d == 1 && e.f == 1 && e.fidi == 372
  {
    assert e0.atr[..|e0.atr|] == e0.atr;
    EA.SearchFindsWi(a);
    UartRatioIs(372, 1, 1);
  }

  lemma SnifferSide(s: S.Sniff, a: A.AtrTree)
    requires SnifferFresh(s) && A.WellFormed(a)
    ensures var s1 := S.Run(s, A.Encode(a)); var wi := A.WiOf(a.chain);
      && s1.iso == S.WaitTpdu && s1.tpdu == S.Tpdu(S.CLA, []) && !s1.atr.convert
      && s1.rate == S.Rate(wi, 1, wi * 960 * 1, 372)
  {
    SA.AtrAccepted(s, a);
  }

  /** Any well-formed ATR, sent with timer rounds and messages of the host at any time: both sides take the same waiting
      integer from it, the emulator by searching TC2 in the bytes it sent, the sniffer while it parses them. */
  lemma AtrAgrees(e: E.Emu, s: S.Sniff, a: A.AtrTree, evs: seq<E.Event>)
    requires R.Inv(e) && e.iso == E.InAtr && e.idx == 0 && Fresh(e, a) && SnifferFresh(s)
    requires R.AllCalm(evs) && R.Count(evs) > |e.atr|
    ensures Agreed(R.Run(e, evs), e, S.Run(s, A.Encode(a)), a)
  {
    EA.AtrSent(e, evs);
    EmulatorSide(R.Run(e, evs), e, a);
    SnifferSide(s, a);
  }

  // ---------------------------------------------------------------- the PPS exchange

  /** All that happens until the response is out. */
  predicate Exchange(m: PpsMsg, before: seq<E.Event>, after: seq<E.Event>) {
    && PpsValid(m) && EP.Requesting(before) && R.Readers(before) == PpsBytes(m)[..|PpsBytes(m)| - 1]
    && R.AllCalm(after) && R.Count(after) >= |PpsBytes(m)|
  }

  function Exchanged(e: E.Emu, m: PpsMsg, before: seq<E.Event>, after: seq<E.Event>): (e1: E.Emu)
    requires R.Inv(e) && Exchange(m, before, after)
    ensures R.Inv(e1)
  {
    R.Run(EP.Asked(e, m, before), after)
  }

  /** The exchange on the wire: the request of the reader, and the response of the emulator. */
  lemma PpsOnBothSides(e: E.Emu, s: S.Sniff, m: PpsMsg, before: seq<E.Event>, after: seq<E.Event>)
    requires BothWait(e, s) && SameRates(e, s) && Exchange(m, before, after)
    ensures var b := PpsBytes(m); var e1, s1 := Exchanged(e, m, before, after), S.Run(s, b + b);
      && R.Wire(e1.log) == R.Wire(e.log) + b
      && BothWait(e1, s1)
      && e1.d == (if m.pps0 & 0x10 != 0 then Low(m.p1) else e.d)
      && e1.f == (if m.pps0 & 0x10 != 0 then High(m.p1) else e.f)
      && e1.fidi == RatioAfter(e.fidi, e1.f, e1.d) && e1.wi == e.wi && e1.wt == e.wi * 960 * WholeD(e1.d)
      && s1.rate == SP.RateAfterPps(s.rate, m)
  {
    var b := PpsBytes(m);
    EP.PtsEcho(e, m, before, after);
    assert b[..|b|] == b;
    SP.ExchangeRun(s, m);
  }

  /** With PPS1 the ratios always agree; the waiting times do iff the index of D is one that both read in the table,
      or is 0, for which the emulator takes 1 and the sniffer keeps the D it is at, while that is 1. */
  lemma Pps1Agrees(e: E.Emu, s: S.Sniff, m: PpsMsg, before: seq<E.Event>, after: seq<E.Event>)
    requires BothWait(e, s) && SameRates(e, s) && Exchange(m, before, after) && m.pps0 & 0x10 != 0
    ensures var e1, s1 := Exchanged(e, m, before, after), S.Run(s, PpsBytes(m) + PpsBytes(m));
      && BothWait(e1, s1) && e1.fidi == s1.rate.fidi && e1.wi == s1.rate.wi
      && (e1.wt == s1.rate.wt <==> 1 <= Low(m.p1) <= 9 || (Low(m.p1) == 0 && s.rate.d == 1))
      && (1 <= Low(m.p1) <= 9 ==> SameRates(e1, s1) && e1.wt == e.wi * 960 * Di(Low(m.p1)))
  {
    PpsOnBothSides(e, s, m, before, after);
    B.RateInNumbers(s.rate, m);
    DTables(e.wi, Low(m.p1), s.rate.d);
  }

  /** A request with PPS1 and D of index 1 to 9, and what happens until it is answered. */
  datatype Change = Change(m: PpsMsg, before: seq<E.Event>, after: seq<E.Event>)

  predicate Changing(c: Change) {
    Exchange(c.m, c.before, c.after) && c.m.pps0 & 0x10 != 0 && 1 <= Low(c.m.p1) <= 9
  }

  predicate AllChanging(cs: seq<Change>) {
    cs == [] || (Changing(cs[0]) && AllChanging(cs[1..]))
  }

  function Change1(e: E.Emu, c: Change): (e1: E.Emu)
    requires R.Inv(e) && Changing(c)
    ensures R.Inv(e1)
  {
    Exchanged(e, c.m, c.before, c.after)
  }

  function Observe1(s: S.Sniff, c: Change): S.Sniff {
    S.Run(s, PpsBytes(c.m) + PpsBytes(c.m))
  }

  function Changed(e: E.Emu, cs: seq<Change>): (e1: E.Emu)
    requires R.Inv(e) && AllChanging(cs)
    ensures R.Inv(e1)
    decreases |cs|
  {
    if cs == [] then e else Changed(Change1(e, cs[0]), cs[1..])
  }

  function Observed(s: S.Sniff, cs: seq<Change>): S.Sniff
    decreases |cs|
  {
    if cs == [] then s else Observed(Observe1(s, cs[0]), cs[1..])
  }

  /** Both at the same rates, with the waiting time of the D of that index. */
  ghost predicate Level(e: E.Emu, s: S.Sniff, wi: nat, dn: nat)
    requires dn < 16
  {
    BothWait(e, s) && SameRates(e, s) && e.wi == wi && e.wt == wi * 960 * Di(dn)
  }

  lemma LevelAfter(e: E.Emu, s: S.Sniff, c: Change)
    requires BothWait(e, s) && SameRates(e, s) && Changing(c)
    ensures Level(Change1(e, c), Observe1(s, c), e.wi, Low(c.m.p1))
  {
    Pps1Agrees(e, s, c.m, c.before, c.after);
    PpsOnBothSides(e, s, c.m, c.before, c.after);
  }

  lemma LevelFrom(e: E.Emu, s: S.Sniff, wi: nat, dn: nat, c: Change)
    requires dn < 16 && Level(e, s, wi, dn) && Changing(c)
    ensures Level(Change1(e, c), Observe1(s, c), wi, Low(c.m.p1))
  {
    LevelAfter(e, s, c);
  }

  /** The index of D that was asked for last. */
  function LastD(dn: nat, cs: seq<Change>): (n: nat)
    requires dn < 16
    ensures n < 16
    decreases |cs|
  {
    if cs == [] then dn else LastD(Low(cs[0].m.p1), cs[1..])
  }

  lemma {:induction false} ManyFrom(e: E.Emu, s: S.Sniff, wi: nat, dn: nat, cs: seq<Change>)
    requires dn < 16 && Level(e, s, wi, dn) && AllChanging(cs)
    ensures Level(Changed(e, cs), Observed(s, cs), wi, LastD(dn, cs))
    decreases |cs|
  {
    if cs != [] {
      LevelFrom(e, s, wi, dn, cs[0]);
      ManyFrom(Change1(e, cs[0]), Observe1(s, cs[0]), wi, Low(cs[0].m.p1), cs[1..]);
    }
  }

  /** Any number of such exchanges: the same rates on both sides, those of the last one. */
  lemma ManyChanges(e: E.Emu, s: S.Sniff, cs: seq<Change>)
    requires BothWait(e, s) && SameRates(e, s) && AllChanging(cs) && cs != []
    ensures Level(Changed(e, cs), Observed(s, cs), e.wi, LastD(0, cs))
  {
    LevelAfter(e, s, cs[0]);
    ManyFrom(Change1(e, cs[0]), Observe1(s, cs[0]), e.wi, Low(cs[0].m.p1), cs[1..]);
  }

  // ---------------------------------------------------------------- a whole session

  /** Both at the rates of the ATR and of PPS1, after the emulator has sent the ATR and the response since `e0`. */
  ghost predicate Negotiated(e: E.Emu, e0: E.Emu, s: S.Sniff, a: A.AtrTree, m: PpsMsg)
    requires A.WellFormed(a)
  {
    && BothWait(e, s) && SameRates(e, s) && R.Wire(e.log) == R.Wire(e0.log) + A.Encode(a) + PpsBytes(m)
    && e.wt == A.WiOf(a.chain) * 960 * Di(Low(m.p1))
    && e.fidi == RatioAfter(372, High(m.p1), Low(m.p1))
  }

  /** The sniffer's view of it. */
  function Sniffed(s: S.Sniff, a: A.AtrTree, m: PpsMsg): S.Sniff
    requires A.WellFormed(a)
  {
    S.Run(S.Run(s, A.Encode(a)), PpsBytes(m) + PpsBytes(m))
  }

  lemma AfterAtr(e: E.Emu, e0: E.Emu, s: S.Sniff, a: A.AtrTree, m: PpsMsg, before: seq<E.Event>, after: seq<E.Event>)
    requires A.WellFormed(a) && Agreed(e, e0, S.Run(s, A.Encode(a)), a)
    requires Exchange(m, before, after) && m.pps0 & 0x10 != 0 && 1 <= Low(m.p1) <= 9
    ensures Negotiated(Exchanged(e, m, before, after), e0, Sniffed(s, a, m), a, m)
  {
    LevelAfter(e, S.Run(s, A.Encode(a)), Change(m, before, after));
    PpsOnBothSides(e, S.Run(s, A.Encode(a)), m, before, after);
  }

  /** From the start of the ATR on: the ATR, then an exchange with PPS1 and D of index 1 to 9. */
  lemma Session(e: E.Emu, s: S.Sniff, a: A.AtrTree, m: PpsMsg, evs: seq<E.Event>, before: seq<E.Event>,
                after: seq<E.Event>)
    requires R.Inv(e) && e.iso == E.InAtr && e.idx == 0 && Fresh(e, a) && SnifferFresh(s)
    requires R.AllCalm(evs) && R.Count(evs) > |e.atr|
    requires Exchange(m, before, after) && m.pps0 & 0x10 != 0 && 1 <= Low(m.p1) <= 9
    ensures Negotiated(Exchanged(R.Run(e, evs), m, before, after), e, Sniffed(s, a, m), a, m)
  {
    AtrAgrees(e, s, a, evs);
    AfterAtr(R.Run(e, evs), e, s, a, m, before, after);
  }

  /** The reset line is released. */
  function Released(e: E.Emu): (e1: E.Emu)
    requires R.Inv(e)
    ensures R.Inv(e1)
  {
    R.RstKeeps(e, false);
    E.OnRst(e, false)
  }

  /** The same from the moment both see the reset line released, the emulator having power and clock: whatever the
      timer, the transmitter and the host do until the emulator waits for a TPDU. */
  lemma FromReset(e0: E.Emu, s0: S.Sniff, a: A.AtrTree, m: PpsMsg, boot: seq<E.Event>, before: seq<E.Event>,
                  after: seq<E.Event>)
    requires R.Inv(e0) && e0.iso == E.WaitRst && e0.vcc && e0.clocked && e0.inReset
    requires !s0.atr.convert && (s0.iso == S.Reset ==> s0.rate == S.Rate(10, 1, 9600, 372))
    requires A.WellFormed(a) && e0.atr == A.Encode(a)
    requires R.AllCalm(boot) && R.Run(Released(e0), boot).iso == E.WaitTpdu
    requires Exchange(m, before, after) && m.pps0 & 0x10 != 0 && 1 <= Low(m.p1) <= 9
    ensures Negotiated(Exchanged(R.Run(Released(e0), boot), m, before, after), e0,
                       Sniffed(S.OnResetDeassert(S.OnResetAssert(s0)), a, m), a, m)
  {
    var e, s := Released(e0), S.OnResetDeassert(S.OnResetAssert(s0));
    EmulatorBoots(e0);
    var k := EA.BootRuns(e, e, boot);
    EmulatorSide(R.Run(e, boot), e, a);
    SnifferStarts(s0);
    SnifferSide(s, a);
    AfterAtr(R.Run(e, boot), e, s, a, m, before, after);
  }

  /** The two readings of the index of D, the sniffer being at `d0`. */
  lemma DTables(wi: nat, dn: nat, d0: nat)
    requires wi >= 1 && dn < 16
    ensures var d := if Di(dn) != 0 then Di(dn) else d0;
      wi * 960 * WholeD(dn) == wi * 960 * d <==> 1 <= dn <= 9 || (dn == 0 && d0 == 1)
  {
    var d := if Di(dn) != 0 then Di(dn) else d0;
    TablesAre(dn);
    assert dn == 0 || dn == 1 || dn == 2 || dn == 3 || dn == 4 || dn == 5 || dn == 6 || dn == 7 || dn == 8 || dn == 9
        || dn == 10 || dn == 11 || dn == 12 || dn == 13 || dn == 14 || dn == 15;
    assert WholeD(dn) == d <==> 1 <= dn <= 9 || (dn == 0 && d0 == 1);
    SameD(wi, WholeD(dn), d);
  }

  lemma SameD(wi: nat, d: nat, d': nat)
    requires wi >= 1
    ensures wi * 960 * d == wi * 960 * d' <==> d == d'
  {
    if d < d' {
      assert wi * 960 * d' == wi * 960 * d + wi * 960 * (d' - d);
    } else if d > d' {
      assert wi * 960 * d == wi * 960 * d' + wi * 960 * (d - d');
    }
  }

  /** Without PPS1 the emulator keeps F and D, while the sniffer sets its UART from PPS0 and its waiting time from
      D = 1; they agree iff PPS0 read as indices of F and D leads to the ratio of the emulator, and that is at D = 1. */
  lemma NoPps1(e: E.Emu, s: S.Sniff, m: PpsMsg, before: seq<E.Event>, after: seq<E.Event>)
    requires BothWait(e, s) && SameRates(e, s) && Exchange(m, before, after) && m.pps0 & 0x10 == 0
    ensures var e1, s1 := Exchanged(e, m, before, after), S.Run(s, PpsBytes(m) + PpsBytes(m));
      && BothWait(e1, s1) && e1.wi == s1.rate.wi
      && (e1.wt == s1.rate.wt <==> WholeD(e.d) == 1)
      && (SameRates(e1, s1) <==>
          RatioAfter(e.fidi, e.f, e.d) == RatioAfter(e.fidi, High(m.pps0), Low(m.pps0)) && WholeD(e.d) == 1)
  {
    PpsOnBothSides(e, s, m, before, after);
    B.RateInNumbers(s.rate, m);
    SameD(e.wi, WholeD(e.d), 1);
  }

  /** While the emulator is at the default rate, they agree iff PPS0 so read leads to it. */
  lemma NoPps1AtDefault(e: E.Emu, s: S.Sniff, m: PpsMsg, before: seq<E.Event>, after: seq<E.Event>)
    requires BothWait(e, s) && SameRates(e, s) && Exchange(m, before, after) && m.pps0 & 0x10 == 0
    requires e.f == 1 && e.d == 1 && e.fidi == 372
    ensures SameRates(Exchanged(e, m, before, after), S.Run(s, PpsBytes(m) + PpsBytes(m)))
      <==> RatioAfter(372, High(m.pps0), Low(m.pps0)) == 372
  {
    NoPps1(e, s, m, before, after);
    assert Di(1) == 1 && Fi(1) == 372;
  }

  /** A request that leaves everything at its default, for which the sniffer is at half the ratio afterwards. */
  lemma NoPps1Differs()
    ensures var m := PpsMsg(0x02, 0, 0, 0, 0xfd);
      PpsValid(m) && m.pps0 & 0x10 == 0 && FdRatio(High(m.pps0), Low(m.pps0)) == 186
  {
    var b := PpsBytes(PpsMsg(0x02, 0, 0, 0, 0xfd));
    assert b == [0xff, 0x02, 0xfd];
    assert XorAll([0x02, 0xfd]) == 0x02 ^ XorAll([0xfd]) && XorAll([0xfd]) == 0xfd by {
      assert [0x02, 0xfd][1..] == [0xfd];
    }
    assert b[1..] == [0x02, 0xfd];
    assert High(0x02) == 0 && Low(0x02) == 2;
  }
}
