/** The sniffer's ATR parser accepts exactly at the last byte of a well-formed ATR. */
module SniffAtr {
  import opened Iso7816
  import opened SniffSpec
  import opened AtrGrammar

  /** At no proper prefix of `bytes` anything is reported, or the ATR taken to be over. */
  ghost predicate Quiet(s: Sniff, bytes: seq<byte>, reports: seq<Report>)
    decreases |bytes|
  {
    bytes != [] ==> s.iso == InAtr && s.reports == reports && Quiet(OnByte(s, bytes[0]), bytes[1..], reports)
  }

  lemma {:induction false} QuietPrefix(s: Sniff, bytes: seq<byte>, reports: seq<Report>, k: nat)
    requires Quiet(s, bytes, reports) && k < |bytes|
    ensures Run(s, bytes[..k]).iso == InAtr && Run(s, bytes[..k]).reports == reports
    decreases |bytes|
  {
    if k > 0 {
      assert bytes[..k][0] == bytes[0] && bytes[..k][1..] == bytes[1..][..k - 1];
      QuietPrefix(OnByte(s, bytes[0]), bytes[1..], reports, k - 1);
    }
  }

  function AtrFlags(all: seq<byte>, tck: Opt): set<Flag>
    requires |all| > 0
  {
    if tck.Yes? && XorAll(all[1..]) != 0 then {Checksum} else {}
  }

  /** TC2 sets the waiting integer, 0 standing for the default. */
  function RateAfter(r: Rate, group: nat, rank: nat, c: Chain): Rate
    decreases c
  {
    if group == 1 && c.Linked? then RateAfter(r, 2, 0, c.rest)
    else if group == 2 && rank <= 2 && c.tc.Yes? then UpdateWt(r, if c.tc.b == 0 then DEFAULT_WI else c.tc.b as int, 0)
    else r
  }

  /** In numbers. */
  lemma RateAfterIs(r: Rate, c: Chain)
    ensures var r1 := RateAfter(r, 1, 0, c);
      if Tc2(c).No? then r1 == r else r1 == r.(wi := WiOf(c), wt := WiOf(c) * 960 * r.d)
  {
  }

  /** The end of the ATR that `s` was in the middle of. */
  ghost predicate Accepted(s: Sniff, rest: seq<byte>, tck: Opt, rate: Rate, r: Sniff)
    requires |s.atr.got| > 0
  {
    && r.iso == WaitTpdu && r.tpdu == Tpdu(CLA, []) && r.rate == rate && !r.atr.convert && r.pps == s.pps
    && r.reports == s.reports + [AtrReport(s.atr.got + rest, AtrFlags(s.atr.got + rest, tck))]
  }

  /** Inside an ATR, with room for `n` more bytes and nothing wrong so far. */
  ghost predicate Parsing(s: Sniff, n: nat) {
    && s.iso == InAtr && !s.atr.convert && s.atr.flags == {}
    && 2 <= |s.atr.got| && |s.atr.got| + n <= MAX_ATR_SIZE
  }

  ghost predicate Parsed(s: Sniff, rank: nat, rest: seq<byte>, tck: Opt, rate: Rate)
    requires |s.atr.got| > 0
  {
    && Quiet(Settle(s, rank), rest, s.reports)
    && Accepted(s, rest, tck, rate, Run(Settle(s, rank), rest))
  }

  /** The byte `b` brings the parser from the point before `rank` in `s` to the point before `rank1` in `s1`. */
  ghost predicate Advances(s: Sniff, rank: nat, b: byte, s1: Sniff, rank1: nat) {
    && Parsing(s, 1) && Settle(s, rank).iso == InAtr && Settle(s, rank).reports == s.reports
    && OnByte(Settle(s, rank), b) == Settle(s1, rank1)
    && s1.atr.got == s.atr.got + [b] && s1.reports == s.reports && s1.pps == s.pps
  }

  /** One more byte: what holds of the rest after it holds of the whole. */
  lemma ParsedOneMore(s: Sniff, rank: nat, b: byte, rest: seq<byte>, tck: Opt, rate: Rate, s1: Sniff, rank1: nat)
    requires Advances(s, rank, b, s1, rank1) && Parsed(s1, rank1, rest, tck, rate)
    ensures Parsed(s, rank, [b] + rest, tck, rate)
  {
    assert ([b] + rest)[1..] == rest;
    assert s1.atr.got + rest == s.atr.got + ([b] + rest);
  }

  lemma {:induction false} HistRun(s: Sniff, hist: seq<byte>, tck: Opt)
    requires Parsing(s, |hist| + |OptBytes(tck)|) && s.atr.hist == |hist|
    requires TckDue(s.atr) <==> tck.Yes?
    ensures Parsed(s, 4, hist + OptBytes(tck), tck, s.rate)
    decreases |hist|
  {
    var rest := hist + OptBytes(tck);
    if |hist| > 0 {
      var s0 := Settle(s, 4);
      var s1 := s0.(atr := s0.atr.(got := s0.atr.got + [hist[0]], hist := |hist| - 1));
      HistRun(s1, hist[1..], tck);
      assert [hist[0]] + (hist[1..] + OptBytes(tck)) == rest;
      assert Advances(s, 4, hist[0], s1, 4);
      ParsedOneMore(s, 4, hist[0], hist[1..] + OptBytes(tck), tck, s.rate, s1, 4);
    } else if tck.Yes? {
      assert rest == [tck.b] && rest[1..] == [];
      assert Run(Settle(s, 4), rest) == OnByte(Settle(s, 4), tck.b);
      assert s.atr.flags + AtrFlags(s.atr.got + rest, tck) == AtrFlags(s.atr.got + rest, tck);
    } else {
      assert rest == [] && s.atr.got + rest == s.atr.got;
    }
  }

  /** The requirements on the parser state between two interface bytes. */
  ghost predicate InChain(s: Sniff, rank: nat, c: Chain, hist: seq<byte>, tck: Opt) {
    && rank <= 3 && ProtosOk(c) && |hist| < 16
    && Parsing(s, |ChainFrom(c, rank)| + |hist| + |OptBytes(tck)|)
    && s.atr.y == Y(c) && s.atr.hist == |hist| && s.atr.group >= 1
    && ((s.atr.protocols + Protocols(c)) - {0} != {} <==> tck.Yes?)
  }

  function Field(c: Chain, rank: nat): Opt {
    if rank == 0 then c.ta else if rank == 1 then c.tb else c.tc
  }

  /** The state after the interface byte `b` with rank `rank` below 3. */
  ghost function AfterField(s: Sniff, rank: nat, b: byte): Sniff {
    var s0 := Settle(s, rank);
    var s1 := s0.(atr := s0.atr.(got := s0.atr.got + [b]));
    if rank == 2 && s.atr.group == 2 then s1.(rate := UpdateWt(s1.rate, if b == 0 then DEFAULT_WI else b as int, 0))
    else s1
  }

  lemma FieldStep(s: Sniff, rank: nat, c: Chain, hist: seq<byte>, tck: Opt)
    requires InChain(s, rank, c, hist, tck) && rank < 3 && Field(c, rank).Yes?
    ensures var b := Field(c, rank).b; var s1 := AfterField(s, rank, b);
      && Advances(s, rank, b, s1, rank + 1) && InChain(s1, rank + 1, c, hist, tck)
      && RateAfter(s1.rate, s1.atr.group, rank + 1, c) == RateAfter(s.rate, s.atr.group, rank, c)
      && ChainFrom(c, rank) == [b] + ChainFrom(c, rank + 1)
  {
    FieldIndicated(c, rank);
    FieldByte(s, rank, Field(c, rank).b);
  }

  function FieldName(rank: nat): AtrField {
    if rank == 0 then TA else if rank == 1 then TB else TC
  }

  lemma FieldIndicated(c: Chain, rank: nat)
    requires rank < 3 && Field(c, rank).Yes?
    ensures NextInterface(Y(c), rank) == FieldName(rank)
  {
    IndicatorBits(c, 0);
  }

  lemma FieldByte(s: Sniff, rank: nat, b: byte)
    requires Parsing(s, 1) && rank < 3 && NextInterface(s.atr.y, rank) == FieldName(rank)
    ensures Advances(s, rank, b, AfterField(s, rank, b), rank + 1)
    ensures var a := AfterField(s, rank, b).atr;
      a == s.atr.(state := FieldName(rank), got := s.atr.got + [b])
  {
    assert Settle(s, rank) == s.(atr := s.atr.(state := FieldName(rank)));
  }

  /** The state after a TD byte. */
  ghost function AfterLink(s: Sniff, c: Chain): Sniff
    requires c.Linked?
  {
    var s0 := Settle(s, 3);
    s0.(atr := s0.atr.(got := s0.atr.got + [Y(c.rest) | c.proto], protocols := s0.atr.protocols + {c.proto},
                       y := Y(c.rest), group := s0.atr.group + 1))
  }

  lemma LinkStep(s: Sniff, c: Chain, hist: seq<byte>, tck: Opt)
    requires InChain(s, 3, c, hist, tck) && c.Linked?
    ensures var b := Y(c.rest) | c.proto; var s1 := AfterLink(s, c);
      && Advances(s, 3, b, s1, 0) && InChain(s1, 0, c.rest, hist, tck)
      && RateAfter(s1.rate, s1.atr.group, 0, c.rest) == RateAfter(s.rate, s.atr.group, 3, c)
      && ChainFrom(c, 3) == [b] + ChainFrom(c.rest, 0)
  {
    LinkAdvances(s, c);
    LinkInChain(s, c, hist, tck);
    LinkRate(s.rate, s.atr.group, c);
  }

  lemma LinkAdvances(s: Sniff, c: Chain)
    requires Parsing(s, 1) && c.Linked? && c.proto < 16 && s.atr.y == Y(c)
    ensures Settle(s, 3) == s.(atr := s.atr.(state := TD))
    ensures Advances(s, 3, Y(c.rest) | c.proto, AfterLink(s, c), 0)
  {
    LinkIndicated(s, c);
    LinkByte(Settle(s, 3), c);
  }

  lemma LinkIndicated(s: Sniff, c: Chain)
    requires c.Linked? && s.atr.y == Y(c)
    ensures Settle(s, 3) == s.(atr := s.atr.(state := TD))
  {
    IndicatorBits(c, 0);
  }

  /** Only TC of the second group counts. */
  lemma LinkRate(r: Rate, group: nat, c: Chain)
    requires group >= 1 && c.Linked?
    ensures RateAfter(r, group + 1, 0, c.rest) == RateAfter(r, group, 3, c)
  {
  }

  lemma LinkInChain(s: Sniff, c: Chain, hist: seq<byte>, tck: Opt)
    requires InChain(s, 3, c, hist, tck) && c.Linked? && Settle(s, 3) == s.(atr := s.atr.(state := TD))
    ensures InChain(AfterLink(s, c), 0, c.rest, hist, tck)
    ensures ChainFrom(c, 3) == [Y(c.rest) | c.proto] + ChainFrom(c.rest, 0)
  {
    assert AfterLink(s, c).atr.protocols + Protocols(c.rest) == s.atr.protocols + Protocols(c);
  }

  lemma LinkByte(s: Sniff, c: Chain)
    requires Parsing(s, 1) && s.atr.state == TD && c.Linked? && c.proto < 16
    ensures var b := Y(c.rest) | c.proto;
      OnByte(s, b) == Settle(s.(atr := s.atr.(got := s.atr.got + [b], protocols := s.atr.protocols + {c.proto},
                                              y := Y(c.rest), group := s.atr.group + 1)), 0)
  {
    IndicatorBits(c.rest, c.proto);
  }

  ghost predicate ChainParsed(s: Sniff, rank: nat, c: Chain, hist: seq<byte>, tck: Opt)
    requires |s.atr.got| > 0
  {
    Parsed(s, rank, ChainFrom(c, rank) + (hist + OptBytes(tck)), tck, RateAfter(s.rate, s.atr.group, rank, c))
  }

  lemma Associates(b: byte, x: seq<byte>, tail: seq<byte>)
    ensures [b] + (x + tail) == ([b] + x) + tail
  {
  }

  lemma SkipParsed(s: Sniff, rank: nat, c: Chain, hist: seq<byte>, tck: Opt)
    requires InChain(s, rank, c, hist, tck) && rank < 3 && Field(c, rank).No?
    ensures InChain(s, rank + 1, c, hist, tck)
    ensures ChainParsed(s, rank + 1, c, hist, tck) ==> ChainParsed(s, rank, c, hist, tck)
  {
    IndicatorBits(c, 0);
    assert ChainFrom(c, rank) == ChainFrom(c, rank + 1);
    assert Settle(s, rank) == Settle(s, rank + 1);
  }

  lemma LastParsed(s: Sniff, c: Chain, hist: seq<byte>, tck: Opt)
    requires InChain(s, 3, c, hist, tck) && c.Last?
    ensures ChainParsed(s, 3, c, hist, tck)
  {
    IndicatorBits(c, 0);
    assert s.atr.protocols + Protocols(c) == s.atr.protocols;
    HistRun(s, hist, tck);
    assert Settle(s, 3) == Settle(s, 4);
    assert ChainFrom(c, 3) + (hist + OptBytes(tck)) == hist + OptBytes(tck);
  }

  lemma {:induction false} ChainRun(s: Sniff, rank: nat, c: Chain, hist: seq<byte>, tck: Opt)
    requires InChain(s, rank, c, hist, tck)
    ensures ChainParsed(s, rank, c, hist, tck)
    decreases c, 3 - rank
  {
    var tail, rate := hist + OptBytes(tck), RateAfter(s.rate, s.atr.group, rank, c);
    if rank < 3 && Field(c, rank).Yes? {
      var b := Field(c, rank).b;
      var s1 := AfterField(s, rank, b);
      FieldStep(s, rank, c, hist, tck);
      ChainRun(s1, rank + 1, c, hist, tck);
      Associates(b, ChainFrom(c, rank + 1), tail);
      ParsedOneMore(s, rank, b, ChainFrom(c, rank + 1) + tail, tck, rate, s1, rank + 1);
    } else if rank < 3 {
      SkipParsed(s, rank, c, hist, tck);
      ChainRun(s, rank + 1, c, hist, tck);
    } else if c.Linked? {
      var b, s1 := Y(c.rest) | c.proto, AfterLink(s, c);
      LinkStep(s, c, hist, tck);
      ChainRun(s1, 0, c.rest, hist, tck);
      Associates(b, ChainFrom(c.rest, 0), tail);
      ParsedOneMore(s, 3, b, ChainFrom(c.rest, 0) + tail, tck, rate, s1, 0);
    } else {
      LastParsed(s, c, hist, tck);
    }
  }

  lemma NibbleCount(y: byte, n: nat)
    requires n < 16 && y & 0x0f == 0
    ensures (n as byte) < 16 && Low(y | (n as byte)) == n
  {
    var k := n as byte;
    assert k < 16;
    assert (y | k) & 0x0f == k;
  }

  /** TS and T0: the state from which the interface bytes are parsed. */
  ghost function AfterT0(s: Sniff, a: AtrTree): Sniff
    requires |a.hist| < 16
  {
    s.(iso := InAtr,
       atr := Atr(T0, Encode(a)[..2], |a.hist|, Y(a.chain), 1, {}, false, {}))
  }

  lemma HeadRun(s: Sniff, a: AtrTree)
    requires s.iso == WaitAtr && !s.atr.convert && WellFormed(a)
    ensures var s1, s2 := OnByte(s, a.ts), AfterT0(s, a);
      && s1.iso == InAtr && s1.reports == s.reports
      && OnByte(s1, Encode(a)[1]) == Settle(s2, 0) && InChain(s2, 0, a.chain, a.hist, a.tck)
      && s2.reports == s.reports && s2.rate == s.rate
  {
    FormatOf(a);
    TsTaken(s, a.ts);
    T0Taken(OnByte(s, a.ts), Encode(a)[1]);
    assert Encode(a)[..2] == [a.ts] + [Encode(a)[1]];
    assert {} + Protocols(a.chain) == Protocols(a.chain);
  }

  lemma T0Taken(s: Sniff, b: byte)
    requires s.iso == InAtr && s.atr.state == T0 && !s.atr.convert && |s.atr.got| == 1 && s.atr.group == 0
    ensures OnByte(s, b)
      == Settle(s.(atr := s.atr.(got := s.atr.got + [b], hist := Low(b), y := b & 0xf0, group := 1)), 0)
  {
  }

  /** What T0 says. */
  lemma FormatOf(a: AtrTree)
    requires WellFormed(a)
    ensures |Encode(a)| >= 2 && Encode(a)[1] & 0xf0 == Y(a.chain) && Low(Encode(a)[1]) == |a.hist|
  {
    IndicatorBits(a.chain, |a.hist| as byte);
    NibbleCount(Y(a.chain), |a.hist|);
  }

  lemma TsTaken(s: Sniff, ts: byte)
    requires s.iso == WaitAtr && !s.atr.convert && ts in {0x3b, 0x3f}
    ensures var s1 := OnByte(s, ts);
      && s1 == s.(iso := InAtr, atr := s1.atr)
      && s1.atr == s.atr.(state := T0, got := [ts], protocols := {}, convert := false, flags := {}, group := 0)
  {
  }

  /** A well-formed ATR is accepted at its last byte and not before, it is reported verbatim, with the checksum
      flag iff it has a TCK and T0 to TCK do not XOR to zero, and TC2 has set the waiting integer. */
  lemma AtrAccepted(s: Sniff, a: AtrTree)
    requires s.iso == WaitAtr && !s.atr.convert && WellFormed(a)
    ensures var e := Encode(a); var r := Run(s, e);
      && r.iso == WaitTpdu && r.tpdu == Tpdu(CLA, []) && !r.atr.convert
      && r.reports == s.reports + [AtrReport(e, if a.tck.Yes? && XorAll(e[1..]) != 0 then {Checksum} else {})]
      && r.rate == RateAfter(s.rate, 1, 0, a.chain)
      && r.rate == (if Tc2(a.chain).No? then s.rate
                    else s.rate.(wi := WiOf(a.chain), wt := WiOf(a.chain) * 960 * s.rate.d))
      && forall k :: 0 < k < |e| ==> Run(s, e[..k]).iso == InAtr && Run(s, e[..k]).reports == s.reports
  {
    var e, s1, s2 := Encode(a), OnByte(s, a.ts), AfterT0(s, a);
    var rest := ChainFrom(a.chain, 0) + (a.hist + OptBytes(a.tck));
    HeadRun(s, a);
    ChainRun(s2, 0, a.chain, a.hist, a.tck);
    assert e == e[..2] + rest && e[1..][1..] == rest;
    RunTwo(s, e);
    AtrQuiet(s, a);
    RateAfterIs(s.rate, a.chain);
    forall k | 0 < k < |e| ensures Run(s, e[..k]).iso == InAtr && Run(s, e[..k]).reports == s.reports {
      assert e[..k][0] == a.ts && e[..k][1..] == e[1..][..k - 1];
      QuietPrefix(s1, e[1..], s.reports, k - 1);
    }
  }

  /** After the initial character, nothing is reported before the last byte. */
  lemma AtrQuiet(s: Sniff, a: AtrTree)
    requires s.iso == WaitAtr && !s.atr.convert && WellFormed(a)
    ensures Quiet(OnByte(s, a.ts), Encode(a)[1..], s.reports)
  {
    var e, rest := Encode(a), ChainFrom(a.chain, 0) + (a.hist + OptBytes(a.tck));
    HeadRun(s, a);
    ChainRun(AfterT0(s, a), 0, a.chain, a.hist, a.tck);
    assert e[1..][1..] == rest;
  }

  lemma RunTwo(s: Sniff, e: seq<byte>)
    requires |e| >= 2
    ensures Run(s, e) == Run(OnByte(OnByte(s, e[0]), e[1]), e[1..][1..])
  {
  }
}
