/** firmware/libcommon/source/sniffer.c: the code that keeps the state of `SniffSpec` in fixed buffers. */
module Sniffer {
  import opened Iso7816
  import opened SniffSpec

  /** How many bytes of the packet are filled when the given field is expected. */
  predicate PacketFits(f: TpduField, n: nat) {
    match f
    case CLA => n == 0
    case INS => n == 1
    case P1 => n == 2
    case P2 => n == 3
    case P3 => n == 4
    case _ => 5 <= n <= PACKET_SIZE
  }

  function Rank(f: PpsField): nat {
    match f
    case PPSS => 0
    case PPS0 => 1
    case PPS1 => 2
    case PPS2 => 3
    case PPS3 => 4
    case PCK => 5
    case PpsEnd => 6
  }

  /** The slots that were really received before the field `f`. */
  function Relevant(slots: seq<byte>, f: PpsField): seq<byte>
    requires |slots| == 6
  {
    (if Rank(f) > 0 then [slots[0]] else [])
    + (if Rank(f) > 1 then [slots[1]] else [])
    + (if Rank(f) > 2 && slots[1] & 0x10 != 0 then [slots[2]] else [])
    + (if Rank(f) > 3 && slots[1] & 0x20 != 0 then [slots[3]] else [])
    + (if Rank(f) > 4 && slots[1] & 0x40 != 0 then [slots[4]] else [])
    + (if Rank(f) > 5 then [slots[5]] else [])
  }

  /** The slots hold the bytes `got`; the slot of an absent PPS1 holds PPS0. */
  predicate SlotsHold(slots: seq<byte>, f: PpsField, got: seq<byte>) {
    && |slots| == 6 && got == Relevant(slots, f)
    && (Rank(f) > 2 && slots[1] & 0x10 == 0 ==> slots[2] == slots[1])
    && (f == PPS1 ==> slots[1] & 0x10 != 0)
    && (f == PPS2 ==> slots[1] & 0x20 != 0)
    && (f == PPS3 ==> slots[1] & 0x40 != 0)
  }

  /** A byte stored in its slot and in those it falls through: the ones from `f` up to the next field. */
  predicate Stored(slots: seq<byte>, slots': seq<byte>, f: PpsField, next: PpsField, b: byte) {
    && |slots| == |slots'| == 6
    && forall k :: 0 <= k < 6 ==> slots'[k] == if Rank(f) <= k < Rank(next) then b else slots[k]
  }

  /** Before PCK a byte is only recorded. */
  lemma NotLast(s: Sniff, b: byte)
    requires s.iso in {InPpsReq, InPpsRsp} && s.pps.state !in {PCK, PpsEnd} && (s.pps.state == PPSS ==> b == 0xff)
    ensures var next := NextPps(s.pps.state, if |s.pps.got| > 0 then (s.pps.got + [b])[1] else 0);
      PpsByte(s, b) == s.(pps := Pps(next, s.pps.got + [b]))
  {
  }

  lemma {:induction false} StoredHolds(slots: seq<byte>, slots': seq<byte>, f: PpsField, next: PpsField, b: byte,
                                       got: seq<byte>)
    requires SlotsHold(slots, f, got) && f != PpsEnd
    requires Stored(slots, slots', f, next, b) && next == NextPps(f, slots'[1])
    ensures next == NextPps(f, if |got| > 0 then (got + [b])[1] else 0)
    ensures SlotsHold(slots', next, got + [b])
  {
    if f == PPSS {
      assert Relevant(slots', next) == [b];
    } else if f == PPS0 {
      StoredPps0(slots, slots', next, b, got);
    } else {
      assert Relevant(slots', next) == got + [b];
    }
  }

  lemma StoredPps0(slots: seq<byte>, slots': seq<byte>, next: PpsField, b: byte, got: seq<byte>)
    requires SlotsHold(slots, PPS0, got)
    requires Stored(slots, slots', PPS0, next, b) && next == NextPps(PPS0, slots'[1])
    ensures next == NextPps(PPS0, (got + [b])[1]) && SlotsHold(slots', next, got + [b])
  {
    assert got == [slots[0]];
    assert Relevant(slots', next) == [slots[0], b];
  }

  /** The rate byte is in the slot of PPS1, present or not. */
  lemma {:induction false} RateSlot(slots: seq<byte>, got: seq<byte>)
    requires SlotsHold(slots, PpsEnd, got)
    ensures |got| >= 2 && got[1] == slots[1] && RateByte(got) == slots[2]
  {
  }

  function Opt(c: bool, b: byte): seq<byte> {
    if c then [b] else []
  }

  lemma PckByte(s: Sniff, b: byte)
    requires s.iso in {InPpsReq, InPpsRsp} && s.pps.state == PCK
    ensures PpsByte(s, b) == PpsDone(s.(pps := Pps(PpsEnd, s.pps.got + [b])))
  {
  }

  class Sniffer {
    var iso: IsoState

    // g_atr, convention_convert, t_protocol_support and the static variables of process_byte_atr
    var atrState: AtrField
    const atr: array<byte>
    var atrI: nat
    var convert: bool
    var protocols: set<byte>
    var histLen: nat
    var y: byte
    var group: nat
    var atrFlags: set<Flag>

    // g_pps; the bytes received since PPSS
    var ppsState: PpsField
    const req: array<byte>
    const rsp: array<byte>
    ghost var ppsGot: seq<byte>

    // g_tpdu
    var tpduState: TpduField
    const packet: array<byte>
    var packetI: nat

    // g_wt, the static variables of update_wt, and the baud rate register
    var wi: nat
    var d: nat
    var wt: nat
    var fidi: nat

    var reports: seq<Report>

    constructor ()
      ensures Valid() && fresh(atr) && fresh(req) && fresh(rsp) && fresh(packet)
      ensures iso == Reset && reports == [] && !convert && State().rate == Rate(10, 1, 9600, 372)
    {
      iso, atrState, atrI, convert, protocols := Reset, TS, 0, false, {};
      histLen, y, group, atrFlags := 0, 0, 0, {};
      ppsState, ppsGot, tpduState, packetI := PPSS, [], CLA, 0;
      wi, d, wt, fidi, reports := 10, 1, 9600, 372, [];
      atr, packet := new byte[MAX_ATR_SIZE], new byte[PACKET_SIZE];
      req, rsp := new byte[6], new byte[6];
    }

    ghost predicate Valid()
      reads this, req, rsp
    {
      && atr.Length == MAX_ATR_SIZE && atrI <= MAX_ATR_SIZE
      && packet.Length == PACKET_SIZE && packetI <= PACKET_SIZE
      && req.Length == 6 && rsp.Length == 6
      && atr != packet && atr != req && atr != rsp && packet != req && packet != rsp && req != rsp
      && (iso == WaitTpdu ==> tpduState == CLA && packetI == 0)
      && (iso == InTpdu ==> PacketFits(tpduState, packetI))
      && (iso == InPpsReq ==> SlotsHold(req[..], ppsState, ppsGot))
      && (iso == InPpsRsp ==> SlotsHold(rsp[..], ppsState, ppsGot))
    }

    ghost function State(): Sniff
      requires Valid()
      reads this, atr, req, rsp, packet
    {
      Sniff(iso,
            Atr(atrState, atr[..atrI], histLen, y, group, protocols, convert, atrFlags),
            Pps(ppsState, ppsGot), Tpdu(tpduState, packet[..packetI]),
            Rate(wi, d, wt, fidi), reports)
    }

    // ---------------------------------------------------------------- rates and states

    /** `update_wt`; zero leaves a parameter unchanged. */
    method SetWt(wi0: nat, d0: nat)
      requires Valid()
      modifies `wi, `d, `wt
      ensures Valid() && State() == old(State()).(rate := UpdateWt(old(State()).rate, wi0, d0))
    {
      if wi0 != 0 {
        wi := wi0;
      }
      if d0 != 0 {
        d := d0;
      }
      wt := wi * 960 * d;
    }

    /** `update_fidi` (firmware/libcommon/source/simtrace_iso7816.c) */
    method SetFidi(b: byte)
      requires Valid()
      modifies `fidi
      ensures Valid() && State() == old(State()).(rate := UpdateFidi(old(State()).rate, b))
    {
      var ratio := FdRatio(High(b), Low(b));
      if ratio > 0 && ratio <= 0x7ff {
        fidi := ratio;
      }
    }

    /** `change_state` */
    method ChangeState(to: IsoState)
      requires Valid() && (to == InTpdu ==> iso in {WaitTpdu, InTpdu})
      modifies this
      ensures Valid() && State() == Enter(old(State()), to)
    {
      if to == iso {
        return;
      }
      match to {
        case Reset => ToReset();
        case InAtr => ToAtr();
        case InPpsReq => ToPps(to);
        case InPpsRsp => ToPps(to);
        case WaitTpdu => ToWaitTpdu();
        case _ => iso := to;
      }
    }

    method ToReset()
      requires Valid() && iso != Reset
      modifies `iso, `wi, `d, `wt, `fidi
      ensures Valid() && State() == Enter(old(State()), Reset)
    {
      SetFidi(0x11);
      SetWt(10, 1);
      iso := Reset;
    }

    method ToAtr()
      requires Valid() && iso != InAtr
      modifies `iso, `atrI, `convert, `protocols, `atrState
      ensures Valid() && State() == Enter(old(State()), InAtr)
    {
      EmptyAtr();
      convert, protocols := false, {};
      iso := InAtr;
    }

    method EmptyAtr()
      requires Valid()
      modifies `atrI, `atrState
      ensures Valid() && State() == old(State()).(atr := old(State()).atr.(state := TS, got := []))
    {
      atrI, atrState := 0, TS;
    }

    method ToPps(to: IsoState)
      requires Valid() && iso != to && to in {InPpsReq, InPpsRsp}
      modifies `iso, `ppsState, `ppsGot
      ensures Valid() && State() == Enter(old(State()), to)
    {
      ppsState, ppsGot := PPSS, [];
      iso := to;
    }

    method ToWaitTpdu()
      requires Valid() && iso != WaitTpdu
      modifies `iso, `tpduState, `packetI
      ensures Valid() && State() == Enter(old(State()), WaitTpdu)
    {
      tpduState, packetI := CLA, 0;
      iso := WaitTpdu;
    }

    // ---------------------------------------------------------------- reports

    /** `usb_send_atr` */
    method SendAtr(flags: set<Flag>)
      requires Valid() && iso == InAtr
      modifies `reports
      ensures Valid() && State() == Say(old(State()), AtrReport(old(State()).atr.got, flags))
    {
      reports := reports + [AtrReport(atr[..atrI], flags)];
    }

    /** `usb_send_tpdu` */
    method SendTpdu(flags: set<Flag>)
      requires Valid() && iso == InTpdu
      modifies `reports
      ensures Valid() && State() == Say(old(State()), TpduReport(old(State()).tpdu.got, flags))
    {
      reports := reports + [TpduReport(packet[..packetI], flags)];
    }

    /** `usb_send_pps`: whatever the slots hold, the message is the bytes received since PPSS. */
    method SendPps(flags: set<Flag>)
      requires Valid() && iso in {InPpsReq, InPpsRsp}
      modifies `reports
      ensures Valid() && State() == Say(old(State()), PpsReport(ppsGot, flags))
    {
      var pps, n := RelevantSlots(if iso == InPpsReq then req else rsp);
      reports := reports + [PpsReport(pps[..n], flags)];
    }

    method RelevantSlots(cur: array<byte>) returns (pps: array<byte>, n: nat)
      requires cur.Length == 6
      ensures fresh(pps) && n <= pps.Length
      ensures pps[..n] == Relevant(cur[..], ppsState)
    {
      pps, n := new byte[6], 0;
      n := PutIf(pps, n, Rank(ppsState) > 0, cur[0]);
      n := PutIf(pps, n, Rank(ppsState) > 1, cur[1]);
      n := PutIf(pps, n, Rank(ppsState) > 2 && cur[1] & 0x10 != 0, cur[2]);
      ghost var head := pps[..n];
      assert head == (if Rank(ppsState) > 0 then [cur[0]] else []) + (if Rank(ppsState) > 1 then [cur[1]] else [])
        + (if Rank(ppsState) > 2 && cur[1] & 0x10 != 0 then [cur[2]] else []);
      n := PutIf(pps, n, Rank(ppsState) > 3 && cur[1] & 0x20 != 0, cur[3]);
      n := PutIf(pps, n, Rank(ppsState) > 4 && cur[1] & 0x40 != 0, cur[4]);
      n := PutIf(pps, n, Rank(ppsState) > 5, cur[5]);
    }

    method PutIf(pps: array<byte>, n: nat, c: bool, b: byte) returns (n': nat)
      requires n < pps.Length
      modifies pps
      ensures n' == if c then n + 1 else n
      ensures pps[..n'] == old(pps[..n]) + if c then [b] else []
    {
      n' := n;
      if c {
        pps[n] := b;
        n' := n + 1;
      }
    }

    // ---------------------------------------------------------------- ATR

    /** `process_byte_atr` */
    method ProcessByteAtr(b: byte)
      requires Valid()
      modifies this, atr
      ensures Valid() && State() == AtrByte(old(State()), b)
    {
      if iso != InAtr || atrI >= atr.Length {
        return;
      }
      StoreAtr(b);
      match atrState {
        case TS => TakeTs(b);
        case T0 => TakeFormat(b);
        case TD => TakeFormat(b);
        case TA => Continue(1);
        case TB => Continue(2);
        case TC => TakeTc(b);
        case Hist => TakeHist();
        case TCK => TakeTck();
      }
    }

    method StoreAtr(b: byte)
      requires Valid() && atrI < atr.Length
      modifies `atrI, atr
      ensures Valid() && atrI > 0
      ensures State() == old(State()).(atr := old(State()).atr.(got := old(State()).atr.got + [b]))
    {
      ghost var before := atr[..atrI];
      atr[atrI] := b;
      atrI := atrI + 1;
      assert atr[..atrI] == before + [b];
    }

    method TakeTs(b: byte)
      requires Valid() && iso == InAtr && atrState == TS
      modifies this
      ensures Valid() && State() == TsByte(old(State()), b)
    {
      StartAtr();
      if b in {0x23, 0x30} {
        convert := !convert;
        atrState := T0;
      } else if b in {0x3b, 0x3f} {
        atrState := T0;
      } else {
        SendAtr({Malformed});
        ChangeState(WaitAtr);
      }
    }

    method StartAtr()
      requires Valid()
      modifies `atrFlags, `group
      ensures Valid() && State() == old(State()).(atr := old(State()).atr.(flags := {}, group := 0))
    {
      atrFlags, group := {}, 0;
    }

    method TakeFormat(b: byte)
      requires Valid() && iso == InAtr && atrState in {T0, TD}
      modifies this
      ensures Valid() && State() == FormatByte(old(State()), b)
    {
      NoteFormat(b);
      Continue(0);
    }

    method NoteFormat(b: byte)
      requires Valid() && atrState in {T0, TD}
      modifies `histLen, `protocols, `y, `group
      ensures Valid()
      ensures State() ==
        var s := old(State());
        var a := if s.atr.state == T0 then s.atr.(hist := Low(b))
                 else s.atr.(protocols := s.atr.protocols + {b & 0x0f});
        s.(atr := a.(y := b & 0xf0, group := a.group + 1))
    {
      if atrState == T0 {
        histLen := Low(b);
      } else {
        protocols := protocols + {b & 0x0f};
      }
      y := b & 0xf0;
      group := group + 1;
    }

    method TakeTc(b: byte)
      requires Valid() && iso == InAtr
      modifies this
      ensures Valid() && State() == TcByte(old(State()), b)
    {
      if group == 2 {
        SetWt(if b == 0 then DEFAULT_WI else b as int, 0);
      }
      Continue(3);
    }

    method TakeHist()
      requires Valid() && iso == InAtr
      modifies this
      ensures Valid() && State() == HistByte(old(State()))
    {
      if histLen > 0 {
        histLen := histLen - 1;
      }
      Continue(4);
    }

    /** The cases a byte falls through: those of the interface bytes from the given one on, then the end. */
    method Continue(rank: nat)
      requires Valid() && iso == InAtr
      modifies this
      ensures Valid() && State() == Settle(old(State()), rank)
    {
      var f := NextField(rank);
      if f != Hist || histLen > 0 {
        atrState := f;
      } else if exists p :: p in protocols && p != 0 {
        assert TckDue(State().atr) by {
          var p :| p in protocols && p != 0;
          assert p in State().atr.protocols - {0};
        }
        atrState := TCK;
      } else {
        assert protocols - {0} == {};
        SendAtr(atrFlags);
        ChangeState(WaitTpdu);
      }
    }

    method NextField(rank: nat) returns (f: AtrField)
      ensures f == NextInterface(y, rank)
    {
      if rank < 1 && y & 0x10 != 0 {
        f := TA;
      } else if rank < 2 && y & 0x20 != 0 {
        f := TB;
      } else if rank < 3 && y & 0x40 != 0 {
        f := TC;
      } else if rank < 4 && y & 0x80 != 0 {
        f := TD;
      } else {
        f := Hist;
      }
    }

    method TakeTck()
      requires Valid() && iso == InAtr && atrI > 0
      modifies this
      ensures Valid() && State() == TckByte(old(State()))
    {
      CheckAtr();
      SendAtr(atrFlags);
      ChangeState(WaitTpdu);
    }

    method CheckAtr()
      requires Valid() && atrI > 0
      modifies `atrFlags
      ensures Valid()
      ensures State() ==
        var s := old(State());
        s.(atr := s.atr.(flags := s.atr.flags + if XorAll(s.atr.got[1..]) != 0 then {Checksum} else {}))
    {
      var checksum := AtrXor();
      if checksum != 0 {
        atrFlags := atrFlags + {Checksum};
      } else {
        assert State().atr.flags == State().atr.flags + {};
      }
    }

    method AtrXor() returns (checksum: byte)
      requires Valid() && atrI > 0
      ensures checksum == XorAll(State().atr.got[1..])
    {
      checksum := 0;
      for ui := 1 to atrI
        invariant checksum == XorAll(atr[1..ui])
      {
        XorConcat(atr[1..ui], [atr[ui]]);
        assert atr[1..ui + 1] == atr[1..ui] + [atr[ui]];
        checksum := checksum ^ atr[ui];
      }
      assert atr[..atrI][1..] == atr[1..atrI];
    }

    // ---------------------------------------------------------------- PPS

    /** `process_byte_pps` */
    method ProcessBytePps(b: byte)
      requires Valid()
      modifies this, req, rsp
      ensures Valid() && State() == PpsByte(old(State()), b)
    {
      if iso != InPpsReq && iso != InPpsRsp {
        return;
      }
      if ppsState == PPSS && b != 0xff {
        SendPps({Malformed});
        ChangeState(WaitTpdu);
      } else if ppsState == PCK {
        TakePck(b);
      } else if ppsState != PpsEnd {
        StorePps(if iso == InPpsReq then req else rsp, b);
      }
    }

    /** PPSS to PPS3 */
    method StorePps(cur: array<byte>, b: byte)
      requires Valid() && iso in {InPpsReq, InPpsRsp} && cur == (if iso == InPpsReq then req else rsp)
      requires ppsState !in {PCK, PpsEnd} && (ppsState == PPSS ==> b == 0xff)
      modifies `ppsState, `ppsGot, cur
      ensures Valid() && State() == PpsByte(old(State()), b)
    {
      ghost var s := State();
      StoreSlot(cur, b);
      NotLast(s, b);
    }

    method StoreSlot(cur: array<byte>, b: byte)
      requires Valid() && iso in {InPpsReq, InPpsRsp} && cur == (if iso == InPpsReq then req else rsp)
      requires ppsState !in {PCK, PpsEnd} && (ppsState == PPSS ==> b == 0xff)
      modifies `ppsState, `ppsGot, cur
      ensures Valid()
      ensures var s := old(State());
        var next := NextPps(s.pps.state, if |s.pps.got| > 0 then (s.pps.got + [b])[1] else 0);
        State() == s.(pps := Pps(next, s.pps.got + [b]))
    {
      ghost var was := cur[..];
      var next := FallThrough(cur, ppsState, b);
      StoredHolds(was, cur[..], ppsState, next, b, ppsGot);
      ppsGot := ppsGot + [b];
      ppsState := next;
    }

    method FallThrough(cur: array<byte>, f: PpsField, b: byte) returns (next: PpsField)
      requires cur.Length == 6 && f !in {PCK, PpsEnd}
      modifies cur
      ensures next == NextPps(f, cur[1]) && Stored(old(cur[..]), cur[..], f, next, b)
    {
      next := PCK;
      if f == PPSS {
        cur[0] := b;
        next := PPS0;
        return;
      }
      if f == PPS0 {
        cur[1] := b;
        if cur[1] & 0x10 != 0 {
          next := PPS1;
          return;
        }
      }
      if f in {PPS0, PPS1} {
        cur[2] := b;
        if cur[1] & 0x20 != 0 {
          next := PPS2;
          return;
        }
      }
      if f in {PPS0, PPS1, PPS2} {
        cur[3] := b;
        if cur[1] & 0x40 != 0 {
          next := PPS3;
          return;
        }
      }
      cur[4] := b;
    }

    /** The check byte */
    method TakePck(b: byte)
      requires Valid() && iso in {InPpsReq, InPpsRsp} && ppsState == PCK
      modifies this, req, rsp
      ensures Valid() && State() == PpsByte(old(State()), b)
    {
      PckByte(State(), b);
      var check := StorePck(if iso == InPpsReq then req else rsp, b);
      FinishPps(check);
    }

    method FinishPps(check: byte)
      requires Valid() && iso in {InPpsReq, InPpsRsp} && ppsState == PpsEnd && check == XorAll(ppsGot)
      modifies this
      ensures Valid() && State() == PpsDone(old(State()))
    {
      var cur := if iso == InPpsReq then req else rsp;
      RateSlot(cur[..], ppsGot);
      SendPps(if check != 0 then {Checksum} else {});
      if iso == InPpsReq {
        ChangeState(if check == 0 then WaitPpsRsp else WaitTpdu);
      } else {
        ResponseEnd(check, cur[1], cur[2]);
      }
    }

    /** A correct response takes effect. */
    method ResponseEnd(check: byte, pps0: byte, pps1: byte)
      requires Valid()
      modifies this
      ensures Valid()
      ensures State() ==
        var s, dn := old(State()), if pps0 & 0x10 != 0 then Low(pps1) else 1;
        if check != 0 then Enter(s, WaitTpdu)
        else
          Enter(Say(s.(rate := UpdateWt(UpdateFidi(s.rate, pps1), 0, DI_TABLE[dn])), FidiReport(pps1)), WaitTpdu)
    {
      if check == 0 {
        Negotiated(pps0, pps1);
      }
      ChangeState(WaitTpdu);
    }

    method StorePck(cur: array<byte>, b: byte) returns (check: byte)
      requires Valid() && iso in {InPpsReq, InPpsRsp} && cur == (if iso == InPpsReq then req else rsp)
      requires ppsState == PCK
      modifies `ppsState, `ppsGot, cur
      ensures Valid() && ppsState == PpsEnd
      ensures State() == old(State()).(pps := Pps(PpsEnd, old(ppsGot) + [b]))
      ensures check == XorAll(ppsGot)
    {
      StoreLast(cur, b);
      check := SlotXor(cur);
      ppsGot := ppsGot + [b];
      ppsState := PpsEnd;
    }

    method StoreLast(cur: array<byte>, b: byte)
      requires SlotsHold(cur[..], PCK, ppsGot)
      modifies cur
      ensures SlotsHold(cur[..], PpsEnd, ppsGot + [b])
    {
      ghost var was := cur[..];
      cur[5] := b;
      StoredHolds(was, cur[..], PCK, PpsEnd, b, ppsGot);
    }

    method SlotXor(cur: array<byte>) returns (check: byte)
      requires cur.Length == 6
      ensures check == XorAll(Relevant(cur[..], PpsEnd))
    {
      ghost var s := cur[..];
      check := MixIf(0, [], true, cur[0]);
      check := MixIf(check, [s[0]], true, cur[1]);
      ghost var seen := [s[0]] + [s[1]];
      check := MixIf(check, seen, cur[1] & 0x10 != 0, cur[2]);
      seen := seen + Opt(s[1] & 0x10 != 0, s[2]);
      check := MixIf(check, seen, cur[1] & 0x20 != 0, cur[3]);
      seen := seen + Opt(s[1] & 0x20 != 0, s[3]);
      check := MixIf(check, seen, cur[1] & 0x40 != 0, cur[4]);
      seen := seen + Opt(s[1] & 0x40 != 0, s[4]);
      check := MixIf(check, seen, true, cur[5]);
      assert seen + Opt(true, s[5]) == Relevant(s, PpsEnd);
    }

    method MixIf(check: byte, ghost seen: seq<byte>, c: bool, b: byte) returns (check': byte)
      requires check == XorAll(seen)
      ensures check' == XorAll(seen + Opt(c, b))
    {
      check' := if c then check ^ b else check;
      XorConcat(seen, Opt(c, b));
    }

    /** A response with a correct check byte sets the rate from the slot of PPS1. */
    method Negotiated(pps0: byte, pps1: byte)
      requires Valid()
      modifies `fidi, `wi, `d, `wt, `reports
      ensures Valid()
      ensures State() ==
        var s, dn := old(State()), if pps0 & 0x10 != 0 then Low(pps1) else 1;
        Say(s.(rate := UpdateWt(UpdateFidi(s.rate, pps1), 0, DI_TABLE[dn])), FidiReport(pps1))
    {
      var dn := if pps0 & 0x10 != 0 then Low(pps1) else 1;
      SetFidi(pps1);
      SetWt(0, DI_TABLE[dn]);
      reports := reports + [FidiReport(pps1)];
    }

    // ---------------------------------------------------------------- TPDU

    /** `process_byte_tpdu` */
    method ProcessByteTpdu(b: byte)
      requires Valid()
      modifies this, packet
      ensures Valid() && State() == TpduByte(old(State()), b)
    {
      if iso != InTpdu || packetI >= packet.Length {
        return;
      }
      match tpduState {
        case CLA =>
          if b == 0xff {
            RejectTpdu();
          } else {
            Store(b, INS);
          }
        case INS =>
          if IsSw1(b) {
            RejectTpdu();
          } else {
            Store(b, P1);
          }
        case P1 => Store(b, P2);
        case P2 => Store(b, P3);
        case P3 => Store(b, Procedure);
        case Procedure => TakeProcedure(b);
        case SW1 => TakeSw1(b);
        case SW2 => TakeSw2(b);
        case DataSingle => TakeData(b);
        case DataRemaining => TakeData(b);
      }
    }

    method TakeProcedure(b: byte)
      requires Valid() && iso == InTpdu && packetI < packet.Length && tpduState == Procedure
      modifies this, packet
      ensures Valid() && State() == ProcedureByte(old(State()), b)
    {
      assert State().tpdu.got[1] == packet[1];
      if b == 0x60 {
      } else if packet[1] == b {
        SetTpduState(DataRemaining);
      } else if !packet[1] == b {
        SetTpduState(DataSingle);
      } else {
        TakeSw1(b);
      }
    }

    /** `change_tpdu_state` */
    method SetTpduState(next: TpduField)
      requires Valid() && PacketFits(next, packetI)
      requires iso == InTpdu
      modifies `tpduState
      ensures Valid() && State() == Expect(old(State()), next)
    {
      tpduState := next;
    }

    method TakeSw2(b: byte)
      requires Valid() && iso == InTpdu && packetI < packet.Length && tpduState == SW2
      modifies this, packet
      ensures Valid() && State() == TpduByte(old(State()), b)
    {
      Store(b, SW2);
      SendTpdu({});
      ChangeState(WaitTpdu);
    }

    method RejectTpdu()
      requires Valid() && iso == InTpdu
      modifies this
      ensures Valid() && State() == Reject(old(State()))
    {
      SendTpdu({Malformed});
      ChangeState(WaitTpdu);
    }

    method Store(b: byte, next: TpduField)
      requires Valid() && iso == InTpdu && packetI < packet.Length && PacketFits(next, packetI + 1)
      modifies `tpduState, `packetI, packet
      ensures Valid() && State() == Collect(old(State()), b, next)
      ensures iso == InTpdu
    {
      ghost var before := packet[..packetI];
      packet[packetI] := b;
      packetI := packetI + 1;
      assert packet[..packetI] == before + [b];
      tpduState := next;
    }

    method TakeSw1(b: byte)
      requires Valid() && iso == InTpdu && packetI < packet.Length && tpduState in {Procedure, SW1}
      modifies this, packet
      ensures Valid()
      ensures State() == if IsSw1(b) then Collect(old(State()), b, SW2) else Reject(old(State()))
    {
      if IsSw1(b) {
        Store(b, SW2);
      } else {
        RejectTpdu();
      }
    }

    method TakeData(b: byte)
      requires Valid() && iso == InTpdu && packetI < packet.Length && tpduState in {DataSingle, DataRemaining}
      modifies `tpduState, `packetI, packet
      ensures Valid() && State() == TpduByte(old(State()), b)
    {
      Store(b, tpduState);
      assert State().tpdu.got[4] == packet[4];
      if packet[4] == 0 {
        if 5 + 256 <= packetI {
          tpduState := Procedure;
        }
      } else {
        if 5 + packet[4] as int <= packetI {
          tpduState := Procedure;
        }
      }
      if tpduState == DataSingle {
        tpduState := Procedure;
      }
    }

    // ---------------------------------------------------------------- Sniffer_run

    /** A byte taken from the buffer of the interrupt handler. */
    method RunByte(raw: byte)
      requires Valid()
      modifies this, atr, req, rsp, packet
      ensures Valid() && State() == OnByte(old(State()), raw)
    {
      var b := if convert then Convert(raw) else raw;
      if iso in {WaitAtr, InAtr} {
        if iso == WaitAtr {
          ChangeState(InAtr);
        }
        ProcessByteAtr(b);
      } else if iso in {InPpsReq, InPpsRsp} {
        ProcessBytePps(b);
      } else if iso in {WaitTpdu, WaitPpsRsp} && b == 0xff {
        ChangeState(if iso == WaitPpsRsp then InPpsRsp else InPpsReq);
        ProcessBytePps(b);
      } else if iso != Reset {
        if iso == WaitTpdu {
          ChangeState(InTpdu);
        }
        ProcessByteTpdu(b);
      }
    }

    method SendInterrupted()
      requires Valid()
      modifies `reports
      ensures Valid() && State() == Interrupted(old(State()))
      ensures iso == old(iso)
    {
      match iso {
        case InAtr => SendAtr({Incomplete});
        case InTpdu => SendTpdu({Incomplete});
        case InPpsReq => SendPps({Incomplete});
        case InPpsRsp => SendPps({Incomplete});
        case _ =>
      }
    }

    /** The waiting time ran out. */
    method RunTimeout()
      requires Valid()
      modifies this
      ensures Valid() && State() == OnTimeout(old(State()))
    {
      SendInterrupted();
      if iso == InAtr {
        ChangeState(WaitAtr);
      } else if iso in {InTpdu, InPpsReq, InPpsRsp} {
        ChangeState(WaitTpdu);
      }
    }

    method RunResetAssert()
      requires Valid()
      modifies this
      ensures Valid() && State() == OnResetAssert(old(State()))
    {
      SendInterrupted();
      ChangeState(Reset);
    }

    method RunResetDeassert()
      requires Valid()
      modifies this
      ensures Valid() && State() == OnResetDeassert(old(State()))
    {
      ChangeState(WaitAtr);
    }

    /** Any bytes on the wire. */
    method RunBytes(bytes: seq<byte>)
      requires Valid()
      modifies this, atr, req, rsp, packet
      ensures Valid() && State() == Run(old(State()), bytes)
    {
      var left := bytes;
      while left != []
        invariant Valid() && Run(State(), left) == Run(old(State()), bytes)
        decreases |left|
      {
        RunByte(left[0]);
        left := left[1..];
      }
    }
  }
}
