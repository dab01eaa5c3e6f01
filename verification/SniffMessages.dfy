/** The messages of the sniffer as they are sent over USB (firmware/libcommon/include/simtrace_prot.h), and that the
    host prints what was put into them. */
module SniffMessages {
  import B = Bytes
  import D = Deframe

  type byte = bv8

  /** `mid`: sequence and slot number and the reserved field.  The kinds of data are ATR (2), PPS (3) and TPDU (4);
      other messages are of another class or an unknown type. */
  datatype Msg =
    | Change(mid: seq<byte>, flags: seq<byte>)
    | Fidi(mid: seq<byte>, fidi: byte)
    | Data(mid: seq<byte>, kind: byte, flags: seq<byte>, data: seq<byte>)
    | Other(mid: seq<byte>, cls: byte, kind: byte, payload: seq<byte>)

  predicate WellFormed(m: Msg) {
    && |m.mid| == 4
    && match m
       case Change(_, flags) => |flags| == 4
       case Fidi(_, _) => true
       case Data(_, kind, flags, data) => 2 <= kind <= 4 && |flags| == 4 && 8 + 6 + |data| < 0x1_0000
       case Other(_, cls, kind, payload) => (cls != 3 || kind > 4) && 8 + |payload| < 0x1_0000
  }

  /** A 16-bit number, low byte first. */
  function TwoBytes(n: nat): (b: seq<byte>)
    requires n < 0x1_0000
    ensures |b| == 2
  {
    [(n % 256) as byte, (n / 256) as byte]
  }

  /** The header, with the length of the whole message, and the payload. */
  function Packed(cls: byte, kind: byte, mid: seq<byte>, payload: seq<byte>): (s: seq<byte>)
    requires |mid| == 4 && 8 + |payload| < 0x1_0000
    ensures |s| == 8 + |payload|
  {
    [cls, kind] + mid + TwoBytes(8 + |payload|) + payload
  }

  function Encode(m: Msg): (s: seq<byte>)
    requires WellFormed(m)
    ensures |s| >= 8
  {
    match m
    case Change(mid, flags) => Packed(3, 0, mid, flags)
    case Fidi(mid, fidi) => Packed(3, 1, mid, [fidi])
    case Data(mid, kind, flags, data) => Packed(3, kind, mid, flags + TwoBytes(|data|) + data)
    case Other(mid, cls, kind, payload) => Packed(cls, kind, mid, payload)
  }

  /** What is to be printed. */
  function Meaning(m: Msg): seq<D.Output> {
    match m
    case Change(_, flags) => [D.Change(flags)]
    case Fidi(_, fidi) => [D.Fidi(fidi)]
    case Data(_, kind, flags, data) => [D.Data(kind, flags, data)]
    case Other(_, _, _, _) => []
  }

  // ---------------------------------------------------------------- one message

  lemma LowFirst(n: nat)
    requires n < 0x1_0000
    ensures D.Le16(TwoBytes(n)[0], TwoBytes(n)[1]) == n
  {
    B.AsByte(n % 256);
    B.AsByte(n / 256);
    Digits(n, n % 256, n / 256);
  }

  lemma Digits(n: nat, lo: nat, hi: nat)
    requires lo == n % 256 && hi == n / 256
    ensures lo + 256 * hi == n
  {
  }

  lemma PackedIs(cls: byte, kind: byte, mid: seq<byte>, payload: seq<byte>, more: seq<byte>)
    requires |mid| == 4 && 8 + |payload| < 0x1_0000
    ensures var s := Packed(cls, kind, mid, payload) + more;
      && s[0] == cls && s[1] == kind && s[8..] == payload + more
      && D.Complete(s) && D.Processed(s) == 8 + |payload|
  {
    LowFirst(8 + |payload|);
    Placed(cls, kind, mid, TwoBytes(8 + |payload|), payload, more);
  }

  lemma Placed(cls: byte, kind: byte, mid: seq<byte>, len: seq<byte>, payload: seq<byte>, more: seq<byte>)
    requires |mid| == 4 && |len| == 2
    ensures var s := [cls, kind] + mid + len + payload + more;
      && |s| >= 8 && s[0] == cls && s[1] == kind && s[6] == len[0] && s[7] == len[1] && s[8..] == payload + more
  {
  }

  lemma DataHandled(kind: byte, flags: seq<byte>, data: seq<byte>, more: seq<byte>)
    requires 2 <= kind <= 4 && |flags| == 4 && |data| < 0x1_0000
    ensures D.Handle(kind, flags + TwoBytes(|data|) + data + more) == D.Some(D.Data(kind, flags, data))
  {
    var s := flags + TwoBytes(|data|) + data + more;
    LowFirst(|data|);
    assert s[4] == TwoBytes(|data|)[0] && s[5] == TwoBytes(|data|)[1];
    assert s[..4] == flags && s[6..6 + |data|] == data;
  }

  /** Every message, whatever follows it: it is consumed, and exactly what was put into it is printed. */
  lemma PrintedIs(m: Msg, more: seq<byte>)
    requires WellFormed(m)
    ensures D.Processed(Encode(m) + more) == |Encode(m)| && D.Printed(Encode(m) + more) == Meaning(m)
  {
    match m
    case Change(mid, flags) =>
      PackedIs(3, 0, mid, flags, more);
      assert (flags + more)[..4] == flags;
    case Fidi(mid, fidi) =>
      PackedIs(3, 1, mid, [fidi], more);
    case Data(mid, kind, flags, data) =>
      PackedIs(3, kind, mid, flags + TwoBytes(|data|) + data, more);
      DataHandled(kind, flags, data, more);
    case Other(mid, cls, kind, payload) =>
      PackedIs(cls, kind, mid, payload, more);
  }

  lemma IsSelfContained(m: Msg)
    requires WellFormed(m)
    ensures D.SelfContained(Encode(m))
  {
    PrintedIs(m, []);
    assert Encode(m) + [] == Encode(m);
    match m
    case Change(mid, flags) => PackedIs(3, 0, mid, flags, []);
    case Fidi(mid, fidi) => PackedIs(3, 1, mid, [fidi], []);
    case Data(mid, kind, flags, data) => PackedIs(3, kind, mid, flags + TwoBytes(|data|) + data, []);
    case Other(mid, cls, kind, payload) => PackedIs(cls, kind, mid, payload, []);
  }

  // ---------------------------------------------------------------- streams

  predicate AllWellFormed(ms: seq<Msg>) {
    ms != [] ==> WellFormed(ms[0]) && AllWellFormed(ms[1..])
  }

  function EncodeEach(ms: seq<Msg>): (f: seq<seq<byte>>)
    requires AllWellFormed(ms)
  {
    if ms == [] then [] else [Encode(ms[0])] + EncodeEach(ms[1..])
  }

  function EncodeAll(ms: seq<Msg>): seq<byte>
    requires AllWellFormed(ms)
  {
    if ms == [] then [] else Encode(ms[0]) + EncodeAll(ms[1..])
  }

  function MeaningAll(ms: seq<Msg>): seq<D.Output> {
    if ms == [] then [] else Meaning(ms[0]) + MeaningAll(ms[1..])
  }

  /** The beginning of a message is not taken for one. */
  lemma PartWaits(m: Msg, k: nat)
    requires WellFormed(m) && k < |Encode(m)|
    ensures !D.Complete(Encode(m)[..k]) && D.Processed(Encode(m)[..k]) == 0
    ensures D.Frames(Encode(m)[..k]) == [] && D.Rest(Encode(m)[..k]) == Encode(m)[..k]
  {
    PrintedIs(m, []);
    assert Encode(m) + [] == Encode(m);
    assert k >= 8 ==> Encode(m)[..k][6] == Encode(m)[6] && Encode(m)[..k][7] == Encode(m)[7];
  }

  lemma {:induction false} FramesAre(ms: seq<Msg>, tail: seq<byte>)
    requires AllWellFormed(ms) && D.Processed(tail) == 0 && !D.Complete(tail)
    ensures D.Frames(EncodeAll(ms) + tail) == EncodeEach(ms) && D.Rest(EncodeAll(ms) + tail) == tail
    decreases |ms|
  {
    if ms == [] {
      assert EncodeAll(ms) + tail == tail;
    } else {
      var f, rest := Encode(ms[0]), EncodeAll(ms[1..]) + tail;
      FramesAre(ms[1..], tail);
      PrintedIs(ms[0], rest);
      assert EncodeAll(ms) + tail == f + rest && (f + rest)[..|f|] == f && (f + rest)[|f|..] == rest;
    }
  }

  lemma {:induction false} EachPrinted(ms: seq<Msg>)
    requires AllWellFormed(ms)
    ensures D.PrintedAll(EncodeEach(ms)) == MeaningAll(ms)
    ensures forall f <- EncodeEach(ms) :: D.SelfContained(f)
    decreases |ms|
  {
    if ms != [] {
      PrintedIs(ms[0], []);
      assert Encode(ms[0]) + [] == Encode(ms[0]);
      IsSelfContained(ms[0]);
      EachPrinted(ms[1..]);
      assert EncodeEach(ms)[1..] == EncodeEach(ms[1..]);
      forall f | f in EncodeEach(ms) ensures D.SelfContained(f) {
        assert f == Encode(ms[0]) || f in EncodeEach(ms[1..]);
      }
    }
  }

  /** Any messages, cut into transfers in any way, even in the middle of one more message: exactly what was put into
      each is printed, in order, and the beginning of the last one is kept. */
  lemma StreamPrinted(ms: seq<Msg>, last: Msg, k: nat, chunks: seq<seq<byte>>)
    requires AllWellFormed(ms) && WellFormed(last) && k < |Encode(last)|
    requires D.Joined(chunks) == EncodeAll(ms) + Encode(last)[..k]
    ensures D.FeedOutputs([], chunks) == MeaningAll(ms)
    ensures D.FeedFrames([], chunks) == EncodeEach(ms) && D.FeedRest([], chunks) == Encode(last)[..k]
  {
    var none: seq<byte> := [];
    assert none + D.Joined(chunks) == D.Joined(chunks);
    PartWaits(last, k);
    FramesAre(ms, Encode(last)[..k]);
    EachPrinted(ms);
    D.AnyCutting(none, chunks);
    D.AnyCuttingPrints(none, chunks);
  }

  // ---------------------------------------------------------------- commands in one transfer

  lemma EachIsMessage(ms: seq<Msg>)
    requires AllWellFormed(ms)
    ensures D.Joined(EncodeEach(ms)) == EncodeAll(ms)
    ensures forall f <- EncodeEach(ms) :: D.Message(f)
    decreases |ms|
  {
    if ms != [] {
      PrintedIs(ms[0], []);
      assert Encode(ms[0]) + [] == Encode(ms[0]);
      EachIsMessage(ms[1..]);
      assert EncodeEach(ms)[1..] == EncodeEach(ms[1..]);
      forall f | f in EncodeEach(ms) ensures D.Message(f) {
        assert f == Encode(ms[0]) || f in EncodeEach(ms[1..]);
      }
    }
  }

  /** Messages with this header that the firmware gets in one transfer are dispatched one by one, whatever was in the
      buffer before. */
  lemma TransferSplit(ms: seq<Msg>, stale: seq<byte>)
    requires AllWellFormed(ms) && ms != [] && |stale| >= 8
    ensures var buf, n := EncodeAll(ms) + stale, |EncodeAll(ms)|;
      D.Ends(buf, n) && D.Split(buf, n) == EncodeEach(ms)
  {
    EachIsMessage(ms);
    D.SplitJoined(EncodeEach(ms), stale);
  }
}
