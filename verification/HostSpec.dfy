/** The host side of the emulated card: APDU segmentation (host/lib/apdu_dispatch.c) and the answers of
    host/src/simtrace2-cardem-pcsc.c. */
module HostSpec {
  import opened Iso7816
  import opened EmuSpec

  /** `struct osmo_apdu_context`; `dc` is the filled part of the command data, `lc` its announced length. */
  datatype Apdu = Apdu(hdr: seq<byte>, dc: seq<byte>, lc: nat, sw: seq<byte>, kind: nat)

  datatype Action = Unknown | ToCard | More

  const NO_APDU := Apdu([0, 0, 0, 0, 0], [], 0, [0, 0], 0)

  /** The kind of an APDU is given from outside, except that a command repeated after SW1 = 6C keeps its kind. */
  function KindOf(last: Apdu, hdr: seq<byte>, kind: nat): nat
    requires |last.hdr| == |hdr| == 5 && |last.sw| == 2
  {
    if last.sw[0] == 0x6c && 1 <= last.kind < 4 && hdr[..4] == last.hdr[..4] then last.kind else kind
  }

  /** What is to be done with the APDU as far as it is there. */
  function Decide(ac: Apdu): Action {
    if ac.kind in {1, 2} then ToCard
    else if ac.kind in {3, 4} then if |ac.dc| == ac.lc then ToCard else More
    else Unknown
  }

  /** Both counters are bytes, and are in use only for commands with data. */
  predicate Wf(ac: Apdu) {
    |ac.hdr| == 5 && |ac.sw| == 2 && ac.lc < 256 && |ac.dc| < 256 && (ac.kind !in {3, 4} ==> ac.lc == 0 && ac.dc == [])
  }

  /** Not more than the announced bytes are there. */
  predicate Sound(ac: Apdu) {
    Wf(ac) && |ac.dc| <= ac.lc
  }

  /** The first part of an APDU; the number of data bytes in it is counted modulo 256. */
  function Begin(last: Apdu, buf: seq<byte>, kind: nat): (ac: Apdu)
    requires Wf(last) && 5 <= |buf|
    ensures Wf(ac) && (|buf| <= 5 + buf[4] as int ==> Sound(ac))
  {
    var k := KindOf(last, buf[..5], kind);
    if k in {3, 4} then Apdu(buf[..5], buf[5..5 + (|buf| - 5) % 256], buf[4] as int, [0, 0], k)
    else Apdu(buf[..5], [], 0, [0, 0], k)
  }

  function Min(a: nat, b: nat): nat {
    if a < b then a else b
  }

  /** The bytes fit in the buffer of the context.  Once there are too many, nothing else limits them. */
  predicate Fits(ac: Apdu, buf: seq<byte>) {
    ac.kind in {3, 4} && |ac.dc| > ac.lc ==> |ac.dc| + |buf| <= 256
  }

  function Append(ac: Apdu, buf: seq<byte>): (ac': Apdu)
    requires Wf(ac) && Fits(ac, buf)
    ensures Wf(ac') && (Sound(ac) ==> Sound(ac'))
  {
    if ac.kind !in {3, 4} then ac
    else if |ac.dc| <= ac.lc then ac.(dc := ac.dc + buf[..Min(|buf|, ac.lc - |ac.dc|)])
    else
      var all := ac.dc + buf;
      ac.(dc := all[..|all| % 256])
  }

  /** The chunks of the command data, one after the other, and what is decided at the end. */
  function Chunks(ac: Apdu, chunks: seq<seq<byte>>): (ac': Apdu)
    requires Sound(ac)
    ensures Sound(ac')
    decreases |chunks|
  {
    if chunks == [] then ac else Chunks(Append(ac, chunks[0]), chunks[1..])
  }

  function Joined(chunks: seq<seq<byte>>): seq<byte> {
    if chunks == [] then [] else chunks[0] + Joined(chunks[1..])
  }

  /** Cutting a sequence off after `room` elements can be done piece by piece. */
  lemma Truncated(dc: seq<byte>, a: seq<byte>, b: seq<byte>, room: nat)
    ensures var k := Min(|a|, room);
      (dc + a[..k]) + b[..Min(|b|, room - k)] == dc + (a + b)[..Min(|a + b|, room)]
  {
    if |a| <= room {
      assert (a + b)[..Min(|a + b|, room)] == a + b[..Min(|b|, room - |a|)];
      assert a[..|a|] == a;
    } else {
      assert (a + b)[..room] == a[..room] && b[..0] == [];
    }
  }

  lemma {:induction false} ChunksJoined(ac: Apdu, chunks: seq<seq<byte>>)
    requires Sound(ac) && ac.kind in {3, 4}
    ensures Chunks(ac, chunks)
      == ac.(dc := ac.dc + Joined(chunks)[..Min(|Joined(chunks)|, ac.lc - |ac.dc|)])
    decreases |chunks|
  {
    if chunks == [] {
      assert ac.dc + [] == ac.dc;
    } else {
      var ac1 := Append(ac, chunks[0]);
      ChunksJoined(ac1, chunks[1..]);
      Truncated(ac.dc, chunks[0], Joined(chunks[1..]), ac.lc - |ac.dc|);
    }
  }

  /** However the bytes after the header are cut, more is asked for until the announced number is there; then the
      context holds exactly those bytes. */
  lemma ChunkIndependence(last: Apdu, hdr: seq<byte>, kind: nat, chunks: seq<seq<byte>>)
    requires Wf(last) && |hdr| == 5 && KindOf(last, hdr, kind) in {3, 4}
    ensures var n, data := hdr[4] as int, Joined(chunks);
      var ac := Chunks(Begin(last, hdr, kind), chunks);
      && (Decide(ac) == ToCard <==> |data| >= n)
      && (Decide(ac) == More <==> |data| < n)
      && ac.hdr == hdr && ac.dc == data[..Min(|data|, n)]
  {
    var ac := Begin(last, hdr, kind);
    assert hdr[..5] == hdr && ac.dc == [];
    ChunksJoined(ac, chunks);
  }

  /** After the first part of an APDU with data, nothing is sent to the emulator, neither an answer nor a request for
      more, iff more data bytes came with it than P3 announces. */
  lemma SilentAfterFirst(last: Apdu, buf: seq<byte>, kind: nat, answer: Answer)
    requires Wf(last) && 5 <= |buf| && KindOf(last, buf[..5], kind) in {3, 4} && |answer.sw| == 2
    ensures Respond(Begin(last, buf, kind), Some(answer)).1 == [] <==> (|buf| - 5) % 256 > buf[4] as int
  {
  }

  /** And so it stays as long as the counter does not wrap: further parts are answered again iff they fill the buffer to
      its last byte. */
  lemma SilentAfterMore(ac: Apdu, buf: seq<byte>, answer: Answer)
    requires Wf(ac) && ac.kind in {3, 4} && |ac.dc| > ac.lc && Fits(ac, buf) && |answer.sw| == 2
    ensures Respond(Append(ac, buf), Some(answer)).1 == [] <==> |ac.dc| + |buf| < 256
    ensures |ac.dc| + |buf| < 256 ==> |Append(ac, buf).dc| > ac.lc
  {
  }

  // ---------------------------------------------------------------- messages to the emulator

  /** `osmo_st2_cardem_request_pb_and_rx` */
  function PbRxMsg(pb: byte): TxMsg {
    TxMsg([pb], {PbAndRx})
  }

  /** `osmo_st2_cardem_request_pb_and_tx` */
  function PbTxMsg(pb: byte, data: seq<byte>): TxMsg {
    TxMsg([pb] + data, {PbAndTx})
  }

  /** `osmo_st2_cardem_request_sw_tx` */
  function SwMsg(sw: seq<byte>): TxMsg {
    TxMsg(sw, {PbAndTx, Final})
  }

  /** What the card in the reader answers: data and a status word. */
  datatype Answer = Answer(data: seq<byte>, sw: seq<byte>)

  /** The second half of `process_do_rx_da`.  No answer: the reader failed, and nothing is sent. */
  function Respond(ac: Apdu, answer: Option<Answer>): (Apdu, seq<TxMsg>)
    requires Wf(ac) && (answer.Some? ==> |answer.value.sw| == 2)
  {
    if Decide(ac) == ToCard then
      if answer.None? then (ac, [])
      else
        var Answer(data, sw) := answer.value;
        (ac.(sw := sw), (if data != [] then [PbTxMsg(ac.hdr[1], data)] else []) + [SwMsg(sw)])
    else if ac.lc > |ac.dc| then (ac, [PbRxMsg(ac.hdr[1])])
    else (ac, [])
  }

  /** The context after a message of the emulator. */
  function Segment(last: Apdu, m: ToHost, kind: nat): (ac: Apdu)
    requires Wf(last) && m.RxData?
    requires if TpduHdr in m.flags then 5 <= |m.data| else Fits(last, m.data)
    ensures Wf(ac)
  {
    if TpduHdr in m.flags then Begin(last, m.data, kind) else Append(last, m.data)
  }

  /** The command APDUs that are handed to the card in the reader: one, with the data announced, or none. */
  function Asked(last: Apdu, m: ToHost, kind: nat): seq<seq<byte>>
    requires Wf(last) && m.RxData?
    requires if TpduHdr in m.flags then 5 <= |m.data| else Fits(last, m.data)
  {
    var ac := Segment(last, m, kind);
    if Decide(ac) == ToCard then [ac.hdr + ac.dc] else []
  }

  /** `process_do_rx_da`; None: the APDU was not recognized, and the program ends. */
  function OnRxData(last: Apdu, m: ToHost, kind: nat, answer: Option<Answer>): Option<(Apdu, seq<TxMsg>)>
    requires Wf(last) && (answer.Some? ==> |answer.value.sw| == 2) && m.RxData?
    requires if TpduHdr in m.flags then 5 <= |m.data| else Fits(last, m.data)
  {
    var ac := Segment(last, m, kind);
    if Decide(ac) == Unknown then None else Some(Respond(ac, answer))
  }

  /** The program ends iff the profile does not know the command and it is no repeated one. */
  lemma UnknownIff(last: Apdu, hdr: seq<byte>, kind: nat, answer: Option<Answer>)
    requires Wf(last) && |hdr| == 5 && (answer.Some? ==> |answer.value.sw| == 2)
    ensures
      var repeated := last.sw[0] == 0x6c && 1 <= last.kind <= 3 && forall i :: 0 <= i < 4 ==> hdr[i] == last.hdr[i];
      OnRxData(last, RxData(hdr, {TpduHdr}), kind, answer).None? <==> !repeated && !(1 <= kind <= 4)
  {
    assert hdr[..5] == hdr && |hdr[..4]| == |last.hdr[..4]| == 4;
    assert hdr[..4] == last.hdr[..4] <==> forall i :: 0 <= i < 4 ==> hdr[i] == last.hdr[i] by {
      assert forall i :: 0 <= i < 4 ==> hdr[..4][i] == hdr[i] && last.hdr[..4][i] == last.hdr[i];
    }
  }
}
