/** host/lib/apdu_dispatch.c and the answering part of host/src/simtrace2-cardem-pcsc.c, on buffers. */
module Host {
  import opened Iso7816
  import opened EmuSpec
  import opened HostSpec

  /** `struct osmo_apdu_context` */
  class ApduContext {
    const hdr: array<byte>
    const dc: array<byte>
    const sw: array<byte>
    var apduCase: nat
    var lcTot: nat
    var lcCur: nat

    constructor ()
      ensures Valid() && State() == NO_APDU
      ensures fresh(hdr) && fresh(dc) && fresh(sw)
    {
      hdr, dc, sw := new byte[5](_ => 0), new byte[256](_ => 0), new byte[2](_ => 0);
      apduCase, lcTot, lcCur := 0, 0, 0;
      new;
      assert hdr[..] == [0, 0, 0, 0, 0] && sw[..] == [0, 0] && dc[..0] == [];
    }

    ghost predicate Valid()
      reads this
    {
      && hdr.Length == 5 && dc.Length == 256 && sw.Length == 2 && hdr != dc && hdr != sw && dc != sw
      && lcTot < 256 && lcCur < 256 && (apduCase !in {3, 4} ==> lcTot == 0 && lcCur == 0)
    }

    ghost function State(): (ac: Apdu)
      requires Valid()
      reads this, hdr, dc, sw
      ensures Wf(ac)
    {
      Apdu(hdr[..], dc[..lcCur], lcTot, sw[..], apduCase)
    }

    method CopyFrom(other: ApduContext)
      requires Valid() && other.Valid() && other != this
      requires {hdr, dc, sw} !! {other.hdr, other.dc, other.sw}
      modifies this, hdr, dc, sw
      ensures Valid() && State() == other.State()
      ensures other.Valid() && other.State() == old(other.State())
    {
      CopyBytes(hdr, 0, other.hdr[..]);
      CopyBytes(dc, 0, other.dc[..]);
      CopyBytes(sw, 0, other.sw[..]);
      apduCase, lcTot, lcCur := other.apduCase, other.lcTot, other.lcCur;
    }

    /** `memcpy` */
    static method CopyBytes(to: array<byte>, at: nat, from: seq<byte>)
      requires at + |from| <= to.Length
      modifies to
      ensures to[..] == old(to[..at]) + from + old(to[at + |from|..])
    {
      for i := 0 to |from|
        invariant to[..] == old(to[..at]) + from[..i] + old(to[at + i..])
      {
        to[at + i] := from[i];
      }
    }

    /** `osmo_apdu_segment_in2`; `osimCase` is what the profile of the card says of the header. */
    method SegmentIn2(prev: ApduContext, buf: seq<byte>, newApdu: bool, osimCase: nat) returns (action: Action)
      requires Valid() && prev.Valid() && prev != this && {hdr, dc, sw} !! {prev.hdr, prev.dc, prev.sw}
      requires if newApdu then 5 <= |buf| else Fits(State(), buf)
      modifies this, hdr, dc, sw, prev, prev.hdr, prev.dc, prev.sw
      ensures Valid() && prev.Valid()
      ensures State() == if newApdu then Begin(old(State()), buf, osimCase) else Append(old(State()), buf)
      ensures prev.State() == if newApdu then old(State()) else old(prev.State())
      ensures action == Decide(State())
    {
      if newApdu {
        prev.CopyFrom(this);
        NewApdu(prev, buf, osimCase);
      } else if apduCase in {3, 4} {
        AppendDc(buf);
      }
      action := NextAction();
    }

    method NewApdu(prev: ApduContext, buf: seq<byte>, osimCase: nat)
      requires Valid() && prev.Valid() && prev != this && {hdr, dc, sw} !! {prev.hdr, prev.dc, prev.sw}
      requires 5 <= |buf|
      modifies this, hdr, dc, sw
      ensures Valid() && State() == Begin(old(prev.State()), buf, osimCase)
    {
      StoreHeader(prev, buf[..5], osimCase);
      if apduCase in {3, 4} {
        lcTot := hdr[4] as int;
        lcCur := (|buf| - 5) % 256;
        CopyBytes(dc, 0, buf[5..5 + lcCur]);
        assert dc[..lcCur] == buf[5..5 + lcCur];
      }
    }

    method StoreHeader(prev: ApduContext, header: seq<byte>, osimCase: nat)
      requires Valid() && prev.Valid() && prev != this && {hdr, dc, sw} !! {prev.hdr, prev.dc, prev.sw}
      requires |header| == 5
      modifies this, hdr, sw
      ensures Valid() && State() == Apdu(header, [], 0, [0, 0], KindOf(prev.State(), header, osimCase))
    {
      CopyBytes(hdr, 0, header);
      CopyBytes(sw, 0, [0, 0]);
      assert hdr[..] == header && sw[..] == [0, 0];
      apduCase, lcTot, lcCur := osimCase, 0, 0;
      assert dc[..lcCur] == [];
      var repeated := SameCommand(prev);
      if prev.sw[0] == 0x6c && prev.apduCase >= 1 && prev.apduCase < 4 && repeated {
        apduCase := prev.apduCase;
      }
    }

    /** CLA, INS, P1 and P2 are those of the previous command. */
    method SameCommand(prev: ApduContext) returns (same: bool)
      requires Valid() && prev.Valid()
      ensures same == (hdr[..4] == prev.hdr[..4])
      ensures hdr[..4] == hdr[..][..4] && prev.hdr[..4] == prev.hdr[..][..4]
    {
      same := hdr[0] == prev.hdr[0] && hdr[1] == prev.hdr[1] && hdr[2] == prev.hdr[2] && hdr[3] == prev.hdr[3];
      assert same ==> hdr[..4] == prev.hdr[..4];
      assert !same ==> hdr[..4] != prev.hdr[..4] by {
        assert forall k :: 0 <= k < 4 ==> hdr[..4][k] == hdr[k] && prev.hdr[..4][k] == prev.hdr[k];
      }
    }

    method AppendDc(buf: seq<byte>)
      requires Valid() && apduCase in {3, 4} && Fits(State(), buf)
      modifies dc, `lcCur
      ensures Valid() && State() == Append(old(State()), buf)
    {
      var n := lcTot - lcCur;
      // compared as an unsigned number, a negative difference is large
      if n < 0 || n > |buf| {
        n := |buf|;
      }
      ghost var was := dc[..lcCur];
      CopyBytes(dc, lcCur, buf[..n]);
      ghost var all := was + buf[..n];
      assert dc[..lcCur + n] == all && buf[..|buf|] == buf;
      lcCur := (lcCur + n) % 256;
      assert dc[..lcCur] == all[..lcCur];
    }

    method NextAction() returns (action: Action)
      requires Valid()
      ensures action == Decide(State())
    {
      if apduCase in {1, 2} {
        action := ToCard;
      } else if apduCase in {3, 4} {
        action := if lcTot == lcCur then ToCard else More;
      } else {
        action := Unknown;
      }
    }
  }

  /** The static contexts of `process_do_rx_da`, the command APDUs it has handed to the card in the reader, and the
      messages it has sent to the emulator. */
  class CardSide {
    const ac: ApduContext
    const prev: ApduContext
    var asked: seq<seq<byte>>
    var sent: seq<TxMsg>

    ghost predicate Valid()
      reads this, ac, prev
    {
      ac.Valid() && prev.Valid() && ac != prev && {ac.hdr, ac.dc, ac.sw} !! {prev.hdr, prev.dc, prev.sw}
    }

    constructor ()
      ensures Valid() && ac.State() == NO_APDU && asked == [] && sent == []
      ensures fresh(ac) && fresh(prev) && fresh({ac.hdr, ac.dc, ac.sw, prev.hdr, prev.dc, prev.sw})
    {
      ac := new ApduContext();
      prev := new ApduContext();
      asked, sent := [], [];
    }

    /** The status word is kept, and data and status word are sent to the emulator. */
    method PassOn(answer: Answer)
      requires Valid() && |answer.sw| == 2
      modifies `sent, ac.sw
      ensures Valid() && ac.State() == old(ac.State()).(sw := answer.sw)
      ensures sent == old(sent) + (if answer.data != [] then [PbTxMsg(ac.hdr[1], answer.data)] else [])
                      + [SwMsg(answer.sw)]
    {
      ApduContext.CopyBytes(ac.sw, 0, answer.sw);
      assert ac.sw[..] == answer.sw;
      if answer.data != [] {
        sent := sent + [PbTxMsg(ac.hdr[1], answer.data)];
      }
      sent := sent + [SwMsg(ac.sw[..])];
    }

    /** The command APDU is handed to the card in the reader, and what it answers is passed on. */
    method Transceive(answer: Option<Answer>)
      requires Valid() && Decide(ac.State()) == ToCard && (answer.Some? ==> |answer.value.sw| == 2)
      modifies `asked, `sent, ac.sw
      ensures Valid() && asked == old(asked) + [old(ac.State()).hdr + old(ac.State()).dc]
      ensures var r := Respond(old(ac.State()), answer); ac.State() == r.0 && sent == old(sent) + r.1
    {
      asked := asked + [ac.hdr[..] + ac.dc[..ac.lcTot]];
      if answer.Some? {
        PassOn(answer.value);
      }
    }

    /** `process_do_rx_da`; the card in the reader gives `answer` if it is asked, and the reader works.  False: the APDU
        was not recognized. */
    method ProcessDoRxDa(m: ToHost, osimCase: nat, answer: Option<Answer>) returns (ok: bool)
      requires Valid() && m.RxData? && (answer.Some? ==> |answer.value.sw| == 2)
      requires if TpduHdr in m.flags then 5 <= |m.data| else Fits(ac.State(), m.data)
      modifies this, ac, ac.hdr, ac.dc, ac.sw, prev, prev.hdr, prev.dc, prev.sw
      ensures Valid()
      ensures asked == old(asked) + Asked(old(ac.State()), m, osimCase)
      ensures var r := OnRxData(old(ac.State()), m, osimCase, answer);
        && ok == r.Some?
        && (ok ==> ac.State() == r.value.0 && sent == old(sent) + r.value.1)
    {
      var action := ac.SegmentIn2(prev, m.data, TpduHdr in m.flags, osimCase);
      if action == Unknown {
        return false;
      }
      if action == ToCard {
        Transceive(answer);
      } else if ac.lcTot > ac.lcCur {
        sent := sent + [PbRxMsg(ac.hdr[1])];
      }
      return true;
    }
  }
}
