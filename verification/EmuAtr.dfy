/** The emulator transmits its ATR, and its search for TC2 finds what the structure of the ATR says. */
module EmuAtr {
  import opened Iso7816
  import opened AtrGrammar
  import opened EmuSpec
  import opened EmuRuns

  // ---------------------------------------------------------------- transmission

  /** The transmitter got ready `k` times since the ATR was started in `e0`: so many bytes are out, and once more finds
      it over.  Until then the rates are those of `e0`; after it the waiting integer of the ATR is in force. */
  ghost predicate AtrAt(e: Emu, e0: Emu, k: nat) {
    && Inv(e) && k <= |e0.atr| + 1
    && e.atr == e0.atr && e.f == e0.f && e.d == e0.d && e.fidi == e0.fidi && e.toHost == e0.toHost
    && Wire(e.log) == Wire(e0.log) + e0.atr[..if k < |e0.atr| then k else |e0.atr|]
    && (k <= |e0.atr| ==> e.iso == InAtr && e.idx == k && e.wi == e0.wi && e.wt == e0.wt)
    && (k > |e0.atr| ==>
          e.iso == WaitTpdu && e.wi == SearchWi(e0.atr) && e.wt == e.wi * 960 * WholeD(e0.d))
  }

  lemma AtrByteSent(e: Emu)
    requires Inv(e) && e.iso == InAtr && e.idx < |e.atr|
    ensures OnTxReady(e) == e.(idx := e.idx + 1, log := e.log + [Sent(e.atr[e.idx], FromAtr)])
  {
  }

  lemma AtrEnds(e: Emu)
    requires Inv(e) && e.iso == InAtr && e.idx >= |e.atr|
    ensures var e1 := OnTxReady(e); var wi := SearchWi(e.atr);
      e1 == e.(wi := wi, wt := WaitingTime(wi, EmuD(e.d)), iso := WaitTpdu, tpdu := WaitCla, uart := RxOn,
               timer := e1.timer)
  {
  }

  function Reached(e0: Emu, k: nat): nat {
    if k <= |e0.atr| then k else |e0.atr| + 1
  }

  lemma AtrReady(e: Emu, e0: Emu, k: nat)
    requires AtrAt(e, e0, k)
    ensures AtrAt(OnTxReady(e), e0, Reached(e0, k + 1))
  {
    TxReadyKeeps(e);
    if k < |e0.atr| {
      AtrByteSent(e);
      OneMoreSent(e.log, Wire(e0.log), e0.atr, k);
    } else if k == |e0.atr| {
      AtrEnds(e);
      WaitingTimeIs(SearchWi(e0.atr), e0.d);
    } else {
      assert OnTxReady(e) == e;
    }
  }

  lemma OneMoreSent(log: seq<Entry>, before: seq<byte>, a: seq<byte>, k: nat)
    requires k < |a| && Wire(log) == before + a[..k]
    ensures Wire(log + [Sent(a[k], FromAtr)]) == before + a[..k + 1]
  {
    WireGrows(log, Sent(a[k], FromAtr));
  }

  lemma AtrStep(e: Emu, e0: Emu, k: nat, ev: Event)
    requires AtrAt(e, e0, k) && Calm(ev)
    ensures AtrAt(Step(e, ev), e0, if ev.TxReady? then Reached(e0, k + 1) else k)
  {
    StepKeeps(e, ev);
    match ev
    case TxReady => AtrReady(e, e0, k);
    case TimerRound => TimerOnlyCounts(e);
    case HostTx(m) => HostOnlyQueues(e, m);
  }

  lemma {:induction false} AtrRuns(e: Emu, e0: Emu, k: nat, evs: seq<Event>)
    requires AtrAt(e, e0, k) && AllCalm(evs)
    ensures AtrAt(Run(e, evs), e0, Reached(e0, k + Count(evs)))
    decreases |evs|
  {
    if evs != [] {
      StepKeeps(e, evs[0]);
      AtrStep(e, e0, k, evs[0]);
      AtrRuns(Step(e, evs[0]), e0, if evs[0].TxReady? then Reached(e0, k + 1) else k, evs[1..]);
    }
  }

  /** From the start of the ATR on, with timer rounds and messages of the host at any time: after the transmitter got
      ready `n` times exactly the first `n` bytes are out, in order, and nothing else; once more than there are bytes,
      the emulator waits for a TPDU, with the waiting integer of the ATR. */
  lemma AtrSent(e: Emu, evs: seq<Event>)
    requires Inv(e) && e.iso == InAtr && e.idx == 0 && AllCalm(evs)
    ensures AtrAt(Run(e, evs), e, Reached(e, Count(evs)))
  {
    assert e.atr[..0] == [] && Wire(e.log) + [] == Wire(e.log);
    AtrRuns(e, e, 0, evs);
  }

  // ---------------------------------------------------------------- from the release of the reset line on

  /** The card waits before its ATR. */
  ghost predicate Booting(e: Emu, e0: Emu) {
    && Inv(e) && e == e0.(timer := e.timer) && e0.iso == WaitAtr && e0.wi == 10 && e0.wt == 9600
  }

  lemma BootStep(e: Emu, e0: Emu, ev: Event)
    requires Booting(e, e0) && Calm(ev)
    ensures Booting(Step(e, ev), e0) || AtrAt(Step(e, ev), e0, 0)
  {
    StepKeeps(e, ev);
    assert Wire(e0.log) + e0.atr[..0] == Wire(e0.log);
    if ev.HostTx? {
      HostOnlyQueues(e, ev.m);
    }
  }

  /** Whatever happens meanwhile, the card still waits, or it sends its ATR, or has sent it. */
  lemma {:induction false} BootRuns(e: Emu, e0: Emu, evs: seq<Event>) returns (k: nat)
    requires Booting(e, e0) && AllCalm(evs)
    ensures Booting(Run(e, evs), e0) || AtrAt(Run(e, evs), e0, k)
    decreases |evs|
  {
    k := 0;
    if evs != [] {
      var e1 := Step(e, evs[0]);
      StepKeeps(e, evs[0]);
      BootStep(e, e0, evs[0]);
      if Booting(e1, e0) {
        k := BootRuns(e1, e0, evs[1..]);
      } else {
        AtrRuns(e1, e0, 0, evs[1..]);
        k := Reached(e0, Count(evs[1..]));
      }
    }
  }

  // ---------------------------------------------------------------- another ATR

  /** An ATR set while the card sends one: it is sent from its first byte on, if it is not too long. */
  lemma SetAtrSent(e: Emu, atr: seq<byte>, evs: seq<Event>)
    requires Inv(e) && e.iso == InAtr && AllCalm(evs) && |atr| <= 33
    ensures var n := Count(evs);
      Wire(Run(Step(e, SetAtr(atr)), evs).log) == Wire(e.log) + atr[..if n < |atr| then n else |atr|]
  {
    AtrSent(Step(e, SetAtr(atr)), evs);
  }

  /** An ATR set before the card is activated: once it is, by any line in any order, the card waits to send this ATR, or
      the old one if this is too long, or has sent `k` bytes of it. */
  lemma NewAtr(e: Emu, atr: seq<byte>, ev: Event, boot: seq<Event>) returns (k: nat)
    requires Inv(e) && Inactive(e) && LineEvent(ev) && AllCalm(boot)
    requires !Loses(e, ev) && Active(Step(Step(e, SetAtr(atr)), ev))
    ensures var e1 := Step(Step(e, SetAtr(atr)), ev);
      && Inv(e1) && e1.atr == (if |atr| <= 33 then atr else e.atr)
      && (Booting(Run(e1, boot), e1) || AtrAt(Run(e1, boot), e1, k))
  {
    var e0 := Step(e, SetAtr(atr));
    StepKeeps(e, SetAtr(atr));
    StepKeeps(e0, ev);
    LinesDecide(e0, ev);
    k := BootRuns(Step(e0, ev), Step(e0, ev), boot);
  }

  // ---------------------------------------------------------------- the built-in ATR

  /** A group without interface bytes but TD. */
  lemma BareLink(c: Chain)
    requires c.Linked? && c.ta.No? && c.tb.No? && c.tc.No?
    ensures ChainFrom(c, 0) == [Y(c.rest) | c.proto] + ChainFrom(c.rest, 0)
  {
    assert ChainFrom(c, 3) == [Y(c.rest) | c.proto] + ChainFrom(c.rest, 0);
    assert ChainFrom(c, 2) == [] + ChainFrom(c, 3);
    assert ChainFrom(c, 1) == [] + ChainFrom(c, 2);
    assert ChainFrom(c, 0) == [] + ChainFrom(c, 1);
  }

  /** TD1 names T=0, TD2 T=1, TD3 T=15, and TA4 ends the chain. */
  const DEFAULT_CHAIN: Chain :=
    Linked(No, No, No, 0, Linked(No, No, No, 1, Linked(No, No, No, 15, Last(Yes(0xc7), No, No))))

  lemma DefaultChain()
    ensures ChainFrom(DEFAULT_CHAIN, 0) == [0x80, 0x81, 0x1f, 0xc7]
    ensures Y(DEFAULT_CHAIN) == 0x80 && ProtosOk(DEFAULT_CHAIN) && Protocols(DEFAULT_CHAIN) == {0, 1, 15}
  {
    var g4 := Last(Yes(0xc7), No, No);
    var g3 := Linked(No, No, No, 15, g4);
    var g2 := Linked(No, No, No, 1, g3);
    assert ChainFrom(g4, 0) == [0xc7] by {
      assert ChainFrom(g4, 3) == [] && ChainFrom(g4, 2) == [] + ChainFrom(g4, 3);
      assert ChainFrom(g4, 1) == [] + ChainFrom(g4, 2) && ChainFrom(g4, 0) == [0xc7] + ChainFrom(g4, 1);
    }
    BareLink(g3);
    BareLink(g2);
    BareLink(DEFAULT_CHAIN);
    assert Y(g4) | 15 == 0x1f && Y(g3) | 1 == 0x81 && Y(g2) | 0 == 0x80;
  }

  /** The ATR the emulator starts with is well-formed, and its TCK is right. */
  lemma DefaultAtr()
    ensures var a := AtrTree(0x3b, DEFAULT_CHAIN, [], Yes(0x59));
      WellFormed(a) && Encode(a) == DEFAULT_ATR && XorAll(DEFAULT_ATR[1..]) == 0
  {
    DefaultChain();
    assert 1 in Protocols(DEFAULT_CHAIN) - {0};
    XorOfDefault();
  }

  lemma XorOfDefault()
    ensures XorAll(DEFAULT_ATR[1..]) == 0
  {
    var s: seq<byte> := [0x80, 0x80, 0x81, 0x1f, 0xc7, 0x59];
    assert DEFAULT_ATR[1..] == s;
    assert s == [0x80, 0x80] + [0x81, 0x1f] + [0xc7, 0x59];
    XorPair(0x80, 0x80);
    XorPair(0x81, 0x1f);
    XorPair(0xc7, 0x59);
    XorConcat([0x80, 0x80], [0x81, 0x1f]);
    XorConcat([0x80, 0x80] + [0x81, 0x1f], [0xc7, 0x59]);
  }

  lemma XorPair(x: byte, y: byte)
    ensures XorAll([x, y]) == x ^ y
  {
    assert [x, y] == [x] + [y] && XorAll([y]) == y;
    XorConcat([x], [y]);
  }

  // ---------------------------------------------------------------- TC2

  function Present(o: AtrGrammar.Opt): nat {
    if o.Yes? then 1 else 0
  }

  lemma BitCounts(c: Chain, low: byte)
    requires low < 16
    ensures Indicates(Y(c) | low, c)
  {
    IndicatorBits(c, low);
    var b := Y(c) | low;
    MaskedBits(b, Y(c));
  }

  lemma MaskedBits(b: byte, y: byte)
    requires b & 0xf0 == y
    ensures b & 0x10 == y & 0x10 && b & 0x20 == y & 0x20 && b & 0x40 == y & 0x40 && b & 0x80 == y & 0x80
    ensures y == (y & 0x10) | (y & 0x20) | (y & 0x40) | (y & 0x80)
  {
  }

  lemma ChainSplit(c: Chain)
    ensures ChainFrom(c, 0) == OptBytes(c.ta) + (OptBytes(c.tb) + (OptBytes(c.tc) + ChainFrom(c, 3)))
    ensures |OptBytes(c.ta)| == Present(c.ta) && |OptBytes(c.tb)| == Present(c.tb) && |OptBytes(c.tc)| == Present(c.tc)
  {
    assert ChainFrom(c, 0) == OptBytes(c.ta) + ChainFrom(c, 1);
    assert ChainFrom(c, 1) == OptBytes(c.tb) + ChainFrom(c, 2);
    assert ChainFrom(c, 2) == OptBytes(c.tc) + ChainFrom(c, 3);
  }

  lemma Past(h: seq<byte>, x: seq<byte>, y: seq<byte>, z: seq<byte>, rest: seq<byte>, tail: seq<byte>)
    ensures (h + ((x + (y + (z + rest))) + tail))[|h| + |x| + |y| + |z|..] == rest + tail
  {
    assert h + ((x + (y + (z + rest))) + tail) == (h + x + y + z) + (rest + tail);
  }

  lemma PastTwo(e: seq<byte>, x: seq<byte>, y: seq<byte>, b: byte, rest: seq<byte>, tail: seq<byte>)
    requires e == (x + (y + ([b] + rest))) + tail
    ensures |e| > |x| + |y| && e[|x| + |y|] == b
  {
  }

  lemma HeadOf(e: seq<byte>, b: byte, rest: seq<byte>, tail: seq<byte>)
    requires e == ([b] + rest) + tail
    ensures |e| > 0 && e[0] == b && e[1..] == rest + tail
  {
  }

  lemma EncodeHead(a: AtrTree)
    requires WellFormed(a)
    ensures var e := Encode(a);
      |e| >= 2 && e == e[..2] + (ChainFrom(a.chain, 0) + (a.hist + OptBytes(a.tck)))
  {
  }

  /** TD1 and what follows it. */
  lemma Td1At(a: AtrTree)
    requires WellFormed(a) && a.chain.Linked?
    ensures var c := a.chain; var td1 := 2 + Present(c.ta) + Present(c.tb) + Present(c.tc);
      && td1 < |Encode(a)| && Encode(a)[td1] == Y(c.rest) | c.proto
      && Encode(a)[td1 + 1..] == ChainFrom(c.rest, 0) + (a.hist + OptBytes(a.tck))
  {
    var e, c, tail := Encode(a), a.chain, a.hist + OptBytes(a.tck);
    var td1 := 2 + Present(c.ta) + Present(c.tb) + Present(c.tc);
    FromTd1(a);
    assert ChainFrom(c, 3) == [Y(c.rest) | c.proto] + ChainFrom(c.rest, 0);
    HeadOf(e[td1..], Y(c.rest) | c.proto, ChainFrom(c.rest, 0), tail);
    assert e[td1 + 1..] == e[td1..][1..];
  }

  lemma FromTd1(a: AtrTree)
    requires WellFormed(a)
    ensures var c := a.chain; var td1 := 2 + Present(c.ta) + Present(c.tb) + Present(c.tc);
      td1 <= |Encode(a)| && Encode(a)[td1..] == ChainFrom(c, 3) + (a.hist + OptBytes(a.tck))
  {
    var c := a.chain;
    EncodeHead(a);
    ChainSplit(c);
    Past(Encode(a)[..2], OptBytes(c.ta), OptBytes(c.tb), OptBytes(c.tc), ChainFrom(c, 3), a.hist + OptBytes(a.tck));
  }

  /** The format byte `b` tells the interface bytes of `c`. */
  predicate Indicates(b: byte, c: Chain) {
    && Bit(b, 0x10) == Present(c.ta) && Bit(b, 0x20) == Present(c.tb) && Bit(b, 0x40) == Present(c.tc)
    && (b & 0x80 != 0 <==> c.Linked?)
    && (b & 0xf0 != 0 <==> c.ta.Yes? || c.tb.Yes? || c.tc.Yes? || c.Linked?)
  }

  lemma T0Indicates(a: AtrTree)
    requires WellFormed(a)
    ensures |Encode(a)| >= 2 && Indicates(Encode(a)[1], a.chain)
  {
    BitCounts(a.chain, |a.hist| as byte);
  }

  /** The direct search for TC2 in the bytes finds the waiting integer of the structure. */
  lemma SearchFindsWi(a: AtrTree)
    requires WellFormed(a)
    ensures SearchWi(Encode(a)) == WiOf(a.chain)
  {
    T0Indicates(a);
    if a.chain.Linked? {
      Td1Indicates(a);
    }
    SearchIn(Encode(a), a.chain, a.hist + OptBytes(a.tck));
  }

  lemma Td1Indicates(a: AtrTree)
    requires WellFormed(a) && a.chain.Linked?
    ensures FoundTd1(Encode(a), a.chain, a.hist + OptBytes(a.tck))
  {
    BitCounts(a.chain.rest, a.chain.proto);
    Td1At(a);
  }

  /** TD1 is where the direct search looks for it, and `tail` follows the interface bytes. */
  predicate FoundTd1(e: seq<byte>, c: Chain, tail: seq<byte>)
    requires c.Linked?
  {
    var td1 := 2 + Present(c.ta) + Present(c.tb) + Present(c.tc);
    td1 < |e| && Indicates(e[td1], c.rest) && e[td1 + 1..] == ChainFrom(c.rest, 0) + tail
  }

  lemma SearchIn(e: seq<byte>, c: Chain, tail: seq<byte>)
    requires |e| >= 2 && Indicates(e[1], c) && ProtosOk(c)
    requires c.Linked? ==> FoundTd1(e, c, tail)
    ensures SearchWi(e) == WiOf(c)
  {
    if c.Linked? {
      Tc2InGroup(c.rest, e, 2 + Present(c.ta) + Present(c.tb) + Present(c.tc), tail);
    }
  }

  lemma Tc2InGroup(d: Chain, e: seq<byte>, td1: nat, tail: seq<byte>)
    requires td1 < |e| && ProtosOk(d) && e[td1 + 1..] == ChainFrom(d, 0) + tail
    requires Indicates(e[td1], d)
    ensures WiAfterTd1(e, td1) == if d.tc.Yes? && d.tc.b != 0 then d.tc.b as int else DEFAULT_WI
  {
    if d.tc.Yes? {
      var tc2 := td1 + 1 + Present(d.ta) + Present(d.tb);
      ChainSplit(d);
      PastTwo(e[td1 + 1..], OptBytes(d.ta), OptBytes(d.tb), d.tc.b, ChainFrom(d, 3), tail);
      assert e[td1 + 1..][Present(d.ta) + Present(d.tb)] == e[tc2];
    }
  }
}
