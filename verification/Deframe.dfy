/** Messages in byte streams: the reassembly of host/src/simtrace2-sniff.c, and the splitting of a USB transfer into
    commands in firmware/libcommon/source/mode_cardemu.c. */
module Deframe {

  type byte = bv8

  const HDR := 8
  const BUFFER := 16 * 256

  const CLASS_SNIFF: byte := 3
  const TYPE_CHANGE: byte := 0
  const TYPE_FIDI: byte := 1
  const TYPE_TPDU: byte := 4

  function Le16(lo: byte, hi: byte): (n: nat)
    ensures n < 0x1_0000
  {
    lo as int + 0x100 * (hi as int)
  }

  /** `msg_len` of the header */
  function MsgLen(s: seq<byte>): nat
    requires |s| >= HDR
  {
    Le16(s[6], s[7])
  }

  /** What the program prints of a message. */
  datatype Output = Change(flags: seq<byte>) | Fidi(fidi: byte) | Data(kind: byte, flags: seq<byte>, data: seq<byte>)

  datatype Option<T> = None | Some(value: T)

  /** The payload handlers; they are given all buffered bytes that follow the header, of this and of later messages. */
  function Handle(kind: byte, s: seq<byte>): Option<Output> {
    if kind == TYPE_CHANGE then if |s| < 4 then None else Some(Change(s[..4]))
    else if kind == TYPE_FIDI then if |s| < 1 then None else Some(Fidi(s[0]))
    else if kind <= TYPE_TPDU then
      if |s| < 6 || |s| < 6 + Le16(s[4], s[5]) then None
      else Some(Data(kind, s[..4], s[6..6 + Le16(s[4], s[5])]))
    else None
  }

  predicate Complete(s: seq<byte>) {
    |s| >= HDR && |s| >= MsgLen(s)
  }

  /** Number of bytes `process_usb_msg` consumes; 0 also stands for an incomplete message. */
  function Processed(s: seq<byte>): (n: nat)
    ensures n <= |s|
  {
    if Complete(s) then MsgLen(s) else 0
  }

  /** Its effect. */
  function Printed(s: seq<byte>): seq<Output> {
    if !Complete(s) || s[0] != CLASS_SNIFF then []
    else
      var r := Handle(s[1], s[HDR..]);
      if r.None? then [] else [r.value]
  }

  /** The messages at the front of a stream, what is printed for them, and the rest. */
  function Frames(s: seq<byte>): seq<seq<byte>>
    decreases |s|
  {
    var n := Processed(s);
    if n == 0 then [] else [s[..n]] + Frames(s[n..])
  }

  function Rest(s: seq<byte>): (r: seq<byte>)
    ensures |r| <= |s|
    decreases |s|
  {
    var n := Processed(s);
    if n == 0 then s else Rest(s[n..])
  }

  function Outputs(s: seq<byte>): seq<Output>
    decreases |s|
  {
    var n := Processed(s);
    if n == 0 then Printed(s) else Printed(s) + Outputs(s[n..])
  }

  // ---------------------------------------------------------------- cutting the stream

  /** Parsing what is there first and the whole later: the same messages, and the same rest. */
  lemma {:induction false} FramesInTwo(a: seq<byte>, b: seq<byte>)
    ensures Frames(a + b) == Frames(a) + Frames(Rest(a) + b)
    ensures Rest(a + b) == Rest(Rest(a) + b)
    decreases |a|
  {
    var n := Processed(a);
    if n > 0 {
      assert Processed(a + b) == n && (a + b)[..n] == a[..n] && (a + b)[n..] == a[n..] + b;
      FramesInTwo(a[n..], b);
    }
  }

  function Joined(chunks: seq<seq<byte>>): seq<byte> {
    if chunks == [] then [] else chunks[0] + Joined(chunks[1..])
  }

  /** The receiver: what was received is appended to the rest, and parsed. */
  function FeedFrames(rest: seq<byte>, chunks: seq<seq<byte>>): seq<seq<byte>>
    decreases |chunks|
  {
    if chunks == [] then []
    else Frames(rest + chunks[0]) + FeedFrames(Rest(rest + chunks[0]), chunks[1..])
  }

  function FeedRest(rest: seq<byte>, chunks: seq<seq<byte>>): seq<byte>
    decreases |chunks|
  {
    if chunks == [] then rest else FeedRest(Rest(rest + chunks[0]), chunks[1..])
  }

  function FeedOutputs(rest: seq<byte>, chunks: seq<seq<byte>>): seq<Output>
    decreases |chunks|
  {
    if chunks == [] then []
    else Outputs(rest + chunks[0]) + FeedOutputs(Rest(rest + chunks[0]), chunks[1..])
  }

  lemma {:induction false} RestIsDone(s: seq<byte>)
    ensures Processed(Rest(s)) == 0 && Frames(Rest(s)) == [] && Rest(Rest(s)) == Rest(s)
    decreases |s|
  {
    if Processed(s) > 0 {
      RestIsDone(s[Processed(s)..]);
    }
  }

  /** For every cutting of a stream into transfers: the messages of the whole stream, and its unparsed end. */
  lemma {:induction false} AnyCutting(rest: seq<byte>, chunks: seq<seq<byte>>)
    requires Processed(rest) == 0
    ensures FeedFrames(rest, chunks) == Frames(rest + Joined(chunks))
    ensures FeedRest(rest, chunks) == Rest(rest + Joined(chunks))
    decreases |chunks|
  {
    if chunks == [] {
      assert rest + [] == rest;
    } else {
      var s, more := rest + chunks[0], Joined(chunks[1..]);
      assert s + more == rest + Joined(chunks);
      FramesInTwo(s, more);
      RestIsDone(s);
      AnyCutting(Rest(s), chunks[1..]);
    }
  }

  // ---------------------------------------------------------------- what is printed

  /** What is printed for a message does not depend on what follows it. */
  ghost predicate Stable(f: seq<byte>) {
    forall more :: Printed(f + more) == Printed(f)
  }

  /** The fields of the message are inside it, or nothing is ever printed for it. */
  predicate Contained(f: seq<byte>)
    requires Complete(f)
  {
    f[0] != CLASS_SNIFF || f[1] > TYPE_TPDU || Handle(f[1], f[HDR..]).Some?
  }

  lemma SliceOfLonger(s: seq<byte>, more: seq<byte>, i: nat, j: nat)
    requires i <= j <= |s|
    ensures (s + more)[i..j] == s[i..j]
    ensures s[0..] == s && (i == 0 ==> s[i..j] == s[..j] && (s + more)[i..j] == (s + more)[..j])
  {
  }

  lemma HandleLonger(kind: byte, s: seq<byte>, more: seq<byte>)
    requires Handle(kind, s).Some?
    ensures Handle(kind, s + more) == Handle(kind, s)
  {
    if kind == TYPE_CHANGE {
      SliceOfLonger(s, more, 0, 4);
    } else if kind != TYPE_FIDI {
      SliceOfLonger(s, more, 0, 4);
      SliceOfLonger(s, more, 6, 6 + Le16(s[4], s[5]));
    }
  }

  /** That is so iff the fields of the message are inside it. */
  lemma StableIff(f: seq<byte>)
    requires Complete(f)
    ensures Stable(f) <==> Contained(f)
  {
    if Contained(f) {
      forall more ensures Printed(f + more) == Printed(f) {
        assert (f + more)[HDR..] == f[HDR..] + more;
        if Handle(f[1], f[HDR..]).Some? {
          HandleLonger(f[1], f[HDR..], more);
        }
      }
    } else {
      var more := seq(0x1_0006, _ => 0 as byte);
      assert (f + more)[HDR..] == f[HDR..] + more;
      assert Printed(f + more) != Printed(f);
    }
  }

  predicate SelfContained(f: seq<byte>) {
    Complete(f) && Contained(f)
  }

  function PrintedAll(frames: seq<seq<byte>>): seq<Output> {
    if frames == [] then [] else Printed(frames[0]) + PrintedAll(frames[1..])
  }

  /** Of a stream of messages of at least 8 bytes with their fields inside, exactly what each one says is printed. */
  lemma {:induction false} OutputsOfFrames(s: seq<byte>)
    requires !Complete(Rest(s))
    requires forall f <- Frames(s) :: SelfContained(f)
    ensures Outputs(s) == PrintedAll(Frames(s))
    decreases |s|
  {
    var n := Processed(s);
    if n > 0 {
      var f := s[..n];
      assert Frames(s) == [f] + Frames(s[n..]) && f in Frames(s);
      StableIff(f);
      assert s == f + s[n..];
      assert Printed(f + s[n..]) == Printed(f);
      forall g | g in Frames(s[n..]) ensures SelfContained(g) {
        assert g in Frames(s);
      }
      OutputsOfFrames(s[n..]);
    }
  }

  lemma {:induction false} PrintedInTwo(a: seq<seq<byte>>, b: seq<seq<byte>>)
    ensures PrintedAll(a + b) == PrintedAll(a) + PrintedAll(b)
    decreases |a|
  {
    if a == [] {
      assert a + b == b;
    } else {
      assert (a + b)[1..] == a[1..] + b;
      PrintedInTwo(a[1..], b);
    }
  }

  /** A message of length zero is not passed by more bytes. */
  lemma ZeroStays(s: seq<byte>, more: seq<byte>)
    requires Processed(s) == 0 && Complete(s)
    ensures Complete(Rest(s + more))
  {
    assert (s + more)[6] == s[6] && (s + more)[7] == s[7];
  }

  /** For every cutting of a stream of messages of at least 8 bytes with their fields inside: exactly what each message
      says is printed. */
  lemma {:induction false} AnyCuttingPrints(rest: seq<byte>, chunks: seq<seq<byte>>)
    requires Processed(rest) == 0 && !Complete(Rest(rest + Joined(chunks)))
    requires forall f <- Frames(rest + Joined(chunks)) :: SelfContained(f)
    ensures FeedOutputs(rest, chunks) == PrintedAll(Frames(rest + Joined(chunks)))
    decreases |chunks|
  {
    if chunks == [] {
      assert rest + [] == rest;
    } else {
      var s, more := rest + chunks[0], Joined(chunks[1..]);
      assert s + more == rest + Joined(chunks);
      FramesInTwo(s, more);
      RestIsDone(s);
      if Complete(Rest(s)) {
        ZeroStays(Rest(s), more);
      }
      OutputsOfFrames(s);
      AnyCuttingPrints(Rest(s), chunks[1..]);
      PrintedInTwo(Frames(s), Frames(Rest(s) + more));
    }
  }

  /** A message without its field: nothing is printed if the transfer ends with it, and the first byte of what follows
      if it does not. */
  lemma CuttingShows()
    ensures var f: seq<byte> := [3, 1, 0, 0, 0, 0, 8, 0];
      && Outputs(f) == [] && Outputs(f + [0x11]) == [Fidi(0x11)]
      && Frames(f + [0x11]) == Frames(f) == [f] && Rest(f + [0x11]) == [0x11]
  {
    var f: seq<byte> := [3, 1, 0, 0, 0, 0, 8, 0];
    var g := f + [0x11];
    assert Le16(8, 0) == 8;
    assert Processed(f) == 8 && f[8..] == [] && f[..8] == f;
    assert Processed(g) == 8 && g[8..] == [0x11] && g[..8] == f;
    assert Processed([0x11]) == 0;
  }

  // ---------------------------------------------------------------- the receive buffer

  lemma FrontOff<T>(done: seq<T>, front: seq<T>, rest: seq<T>)
    ensures done + (front + rest) == (done + front) + rest
  {
  }

  class Receiver {
    const buf: array<byte>
    var n: nat
    var frames: seq<seq<byte>>
    var outputs: seq<Output>

    ghost predicate Valid()
      reads this
    {
      buf.Length == BUFFER && n < BUFFER
    }

    constructor ()
      ensures Valid() && n == 0 && frames == [] && outputs == [] && fresh(buf)
    {
      buf, n, frames, outputs := new byte[BUFFER], 0, [], [];
    }

    /** The first message is dropped from the buffer, and the rest moves to the front. */
    method Shift(k: nat)
      requires Valid() && k <= n
      modifies buf, `n
      ensures Valid() && n == old(n) - k && buf[..n] == old(buf[k..n])
    {
      var i := k;
      while i < n
        invariant k <= i <= n == old(n)
        invariant forall j :: 0 <= j < i - k ==> buf[j] == old(buf[j + k])
        invariant forall j :: i - k <= j < BUFFER ==> buf[j] == old(buf[j])
      {
        buf[i - k] := buf[i];
        i := i + 1;
      }
      n := n - k;
    }

    /** `process_usb_msg` */
    method ProcessUsbMsg() returns (processed: nat)
      requires Valid()
      modifies `frames, `outputs
      ensures processed == Processed(buf[..n])
      ensures frames == old(frames) + if processed > 0 then [buf[..processed]] else []
      ensures outputs == old(outputs) + Printed(buf[..n])
    {
      if n < HDR {
        return 0;
      }
      processed := Le16(buf[6], buf[7]);
      if n < processed {
        return 0;
      }
      outputs := outputs + Printed(buf[..n]);
      if processed > 0 {
        frames := frames + [buf[..processed]];
      }
    }

    /** One transfer in `run_mainloop`; false: the buffer is full, and the program ends. */
    method Receive(chunk: seq<byte>) returns (ok: bool)
      requires Valid() && n + |chunk| <= BUFFER
      modifies this, buf
      ensures ok == (old(n) + |chunk| < 4096)
      ensures ok ==>
        var s := old(buf[..n]) + chunk;
        Valid() && buf[..n] == Rest(s) && frames == old(frames) + Frames(s) && outputs == old(outputs) + Outputs(s)
    {
      Fill(chunk);
      if n + |chunk| >= BUFFER {
        return false;
      }
      n := n + |chunk|;
      ParseAll();
      ok := true;
    }

    /** The buffer is never filled by the transfers. */
    static predicate FitAll(rest: seq<byte>, chunks: seq<seq<byte>>)
      decreases |chunks|
    {
      chunks != [] ==> |rest| + |chunks[0]| < 4096 && FitAll(Rest(rest + chunks[0]), chunks[1..])
    }

    /** The main loop. */
    method ReceiveAll(chunks: seq<seq<byte>>)
      requires Valid() && FitAll(buf[..n], chunks)
      modifies this, buf
      ensures Valid() && buf[..n] == FeedRest(old(buf[..n]), chunks)
      ensures frames == old(frames) + FeedFrames(old(buf[..n]), chunks)
      ensures outputs == old(outputs) + FeedOutputs(old(buf[..n]), chunks)
    {
      var left := chunks;
      while left != []
        invariant Valid() && FitAll(buf[..n], left)
        invariant FeedRest(buf[..n], left) == FeedRest(old(buf[..n]), chunks)
        invariant frames + FeedFrames(buf[..n], left) == old(frames) + FeedFrames(old(buf[..n]), chunks)
        invariant outputs + FeedOutputs(buf[..n], left) == old(outputs) + FeedOutputs(old(buf[..n]), chunks)
        decreases |left|
      {
        ghost var f, o, s := frames, outputs, buf[..n] + left[0];
        var ok := Receive(left[0]);
        FrontOff(f, Frames(s), FeedFrames(Rest(s), left[1..]));
        FrontOff(o, Outputs(s), FeedOutputs(Rest(s), left[1..]));
        left := left[1..];
      }
      assert frames + [] == frames && outputs + [] == outputs;
    }

    /** The transfer itself. */
    method Fill(chunk: seq<byte>)
      requires Valid() && n + |chunk| <= BUFFER
      modifies buf
      ensures buf[..n + |chunk|] == old(buf[..n]) + chunk
    {
      for i := 0 to |chunk|
        invariant buf[..n + i] == old(buf[..n]) + chunk[..i]
      {
        buf[n + i] := chunk[i];
      }
    }

    method ParseAll()
      requires Valid()
      modifies this, buf
      ensures var s := old(buf[..n]);
        Valid() && buf[..n] == Rest(s) && frames == old(frames) + Frames(s) && outputs == old(outputs) + Outputs(s)
    {
      ghost var s := buf[..n];
      ghost var allFrames, allOutputs := frames + Frames(s), outputs + Outputs(s);
      var going := true;
      while going
        invariant Valid() && Totals(going, frames, outputs, buf[..n], allFrames, allOutputs, Rest(s))
        decreases n, going
      {
        FirstMessage(frames, outputs, buf[..n], allFrames, allOutputs, Rest(s));
        going := ParseOne();
      }
    }

    /** The first message, if it is complete, is processed and dropped. */
    method ParseOne() returns (going: bool)
      requires Valid()
      modifies this, buf
      ensures Valid()
      ensures var s := old(buf[..n]); var k := Processed(s);
        && going == (k > 0) && n == old(n) - k && buf[..n] == s[k..]
        && frames == old(frames) + (if k > 0 then [s[..k]] else [])
        && outputs == old(outputs) + Printed(s)
    {
      ghost var s := buf[..n];
      var processed := ProcessUsbMsg();
      assert s[processed..] == buf[processed..n] && s[..processed] == buf[..processed];
      if processed > 0 {
        Shift(processed);
      }
      going := processed > 0;
    }
  }

  /** What was found, with what will be found in `s` if the parsing goes on, is everything. */
  predicate Totals(going: bool, frames: seq<seq<byte>>, outputs: seq<Output>, s: seq<byte>,
                   allFrames: seq<seq<byte>>, allOutputs: seq<Output>, rest: seq<byte>) {
    && Rest(s) == rest
    && (going ==> frames + Frames(s) == allFrames && outputs + Outputs(s) == allOutputs)
    && (!going ==> frames == allFrames && outputs == allOutputs && s == rest)
  }

  lemma FirstMessage(frames: seq<seq<byte>>, outputs: seq<Output>, s: seq<byte>,
                     allFrames: seq<seq<byte>>, allOutputs: seq<Output>, rest: seq<byte>)
    requires Totals(true, frames, outputs, s, allFrames, allOutputs, rest)
    ensures var k := Processed(s);
      Totals(k > 0, frames + (if k > 0 then [s[..k]] else []), outputs + Printed(s), s[k..],
             allFrames, allOutputs, rest)
  {
    var k := Processed(s);
    if k > 0 {
      assert (frames + [s[..k]]) + Frames(s[k..]) == frames + Frames(s);
      assert (outputs + Printed(s)) + Outputs(s[k..]) == outputs + Outputs(s);
    } else {
      assert s[0..] == s && frames + [] == frames;
    }
  }

  // ---------------------------------------------------------------- firmware: commands in one transfer

  /** The splitting of the first `n` bytes of a buffer ends.  A header is read even where fewer bytes are left, so that
      it takes in what was in the buffer before; only a length of zero is never passed. */
  predicate Ends(buf: seq<byte>, n: nat)
    requires |buf| >= n + HDR
    decreases n
  {
    var k := MsgLen(buf);
    k >= n || (k > 0 && Ends(buf[k..], n - k))
  }

  /** The messages that are dispatched; one that is longer than what is left is dropped. */
  function Split(buf: seq<byte>, n: nat): seq<seq<byte>>
    requires |buf| >= n + HDR && Ends(buf, n)
    decreases n
  {
    var k := MsgLen(buf);
    if k > n then [] else if k == n then [buf[..n]] else [buf[..k]] + Split(buf[k..], n - k)
  }

  predicate Message(m: seq<byte>) {
    |m| >= HDR && MsgLen(m) == |m|
  }

  lemma MessageFirst(m: seq<byte>, more: seq<byte>, stale: seq<byte>)
    requires Message(m)
    ensures var buf := m + more + stale;
      MsgLen(buf) == |m| && buf[..|m|] == m && buf[|m|..] == more + stale
  {
  }

  /** Messages that were put into one transfer come out again, whatever was in the buffer before. */
  lemma {:induction false} SplitJoined(ms: seq<seq<byte>>, stale: seq<byte>)
    requires ms != [] && |stale| >= HDR && forall m <- ms :: Message(m)
    ensures var buf, n := Joined(ms) + stale, |Joined(ms)|; Ends(buf, n) && Split(buf, n) == ms
    decreases |ms|
  {
    var buf, k := Joined(ms) + stale, |ms[0]|;
    assert ms[0] in ms && Message(ms[0]);
    MessageFirst(ms[0], Joined(ms[1..]), stale);
    assert buf == ms[0] + Joined(ms[1..]) + stale;
    if |ms| > 1 {
      assert ms[1] in ms && Message(ms[1]);
      SplitJoined(ms[1..], stale);
    } else {
      assert ms[1..] == [] && Joined(ms[1..]) == [];
    }
  }

  /** The splitting of the transfer `s` ends whatever was in the buffer before.  A header that is not all there counts
      only if one byte is missing, the high byte of the length, and the low byte reaches the end by itself. */
  predicate Framed(s: seq<byte>)
    decreases |s|
  {
    if |s| >= HDR then MsgLen(s) >= |s| || (MsgLen(s) > 0 && Framed(s[MsgLen(s)..]))
    else s == [] || (|s| == HDR - 1 && s[6] >= 7)
  }

  /** And the dispatched messages do not depend on it either: such a low byte must go beyond the end. */
  predicate SelfFramed(s: seq<byte>)
    decreases |s|
  {
    if |s| >= HDR then MsgLen(s) >= |s| || (MsgLen(s) > 0 && SelfFramed(s[MsgLen(s)..]))
    else |s| == HDR - 1 && s[6] > 7
  }

  /** The messages of such a transfer. */
  function Messages(s: seq<byte>): seq<seq<byte>>
    decreases |s|
  {
    if |s| < HDR || MsgLen(s) > |s| then [] else if MsgLen(s) == |s| then [s]
    else if MsgLen(s) == 0 then [] else [s[..MsgLen(s)]] + Messages(s[MsgLen(s)..])
  }

  /** A header that is all there is not affected. */
  lemma WholeHeader(s: seq<byte>, stale: seq<byte>)
    requires |s| >= HDR && |stale| >= HDR
    ensures MsgLen(s + stale) == MsgLen(s)
    ensures MsgLen(s) <= |s| ==> (s + stale)[..MsgLen(s)] == s[..MsgLen(s)]
    ensures MsgLen(s) <= |s| ==> (s + stale)[MsgLen(s)..] == s[MsgLen(s)..] + stale
  {
  }

  /** With a framed transfer the splitting ends. */
  lemma {:induction false} FramedEnds(s: seq<byte>, stale: seq<byte>)
    requires |stale| >= HDR && Framed(s)
    ensures Ends(s + stale, |s|)
    decreases |s|
  {
    if |s| >= HDR {
      WholeHeader(s, stale);
      if MsgLen(s) < |s| {
        FramedEnds(s[MsgLen(s)..], stale);
      }
    }
  }

  /** With the others zeros in the buffer keep it from ending. */
  lemma {:induction false} UnframedNeverEnds(s: seq<byte>)
    requires !Framed(s)
    ensures !Ends(s + Zeros(), |s|)
    decreases |s|
  {
    var buf, k := s + Zeros(), MsgLen(s + Zeros());
    if |s| >= HDR {
      WholeHeader(s, Zeros());
      if k > 0 {
        UnframedNeverEnds(s[k..]);
      }
    } else if k > 0 {
      assert |s| == HDR - 1 && k == s[6] as int;
      assert buf[k..] == s[k..] + Zeros();
      UnframedNeverEnds(s[k..]);
    }
  }

  function Zeros(): (z: seq<byte>)
    ensures |z| == HDR && forall i :: 0 <= i < HDR ==> z[i] == 0
  {
    [0, 0, 0, 0, 0, 0, 0, 0]
  }

  /** Exactly: the loop ends, whatever was in the buffer before, iff the transfer is framed. */
  lemma EndsIff(s: seq<byte>)
    ensures (forall stale: seq<byte> | |stale| >= HDR :: Ends(s + stale, |s|)) <==> Framed(s)
  {
    if Framed(s) {
      forall stale: seq<byte> | |stale| >= HDR ensures Ends(s + stale, |s|) {
        FramedEnds(s, stale);
      }
    } else {
      UnframedNeverEnds(s);
      assert |Zeros()| >= HDR;
    }
  }

  lemma {:induction false} SelfFramedSplits(s: seq<byte>, stale: seq<byte>)
    requires |stale| >= HDR && SelfFramed(s)
    ensures Ends(s + stale, |s|) && Split(s + stale, |s|) == Messages(s)
    decreases |s|
  {
    if |s| >= HDR {
      WholeHeader(s, stale);
      if MsgLen(s) < |s| {
        SelfFramedSplits(s[MsgLen(s)..], stale);
      } else if MsgLen(s) == |s| {
        assert s[..MsgLen(s)] == s;
      }
    }
  }

  lemma FirstSplit(s: seq<byte>, stale: seq<byte>)
    requires |s| >= HDR && |stale| >= HDR && Framed(s) && MsgLen(s) < |s|
    ensures var k := MsgLen(s);
      && Ends(s + stale, |s|) && Ends(s[k..] + stale, |s| - k)
      && Split(s + stale, |s|) == [s[..k]] + Split(s[k..] + stale, |s| - k)
  {
    WholeHeader(s, stale);
    FramedEnds(s[MsgLen(s)..], stale);
  }

  /** A missing high byte decides whether the last seven bytes are dispatched. */
  lemma {:induction false} HighByteDecides(s: seq<byte>)
    requires s != [] && Framed(s) && !SelfFramed(s)
    ensures Ends(s + Zeros(), |s|) && Ends(s + ([1] + Zeros()), |s|)
    ensures Split(s + Zeros(), |s|) != Split(s + ([1] + Zeros()), |s|)
    decreases |s|
  {
    var one := [1] + Zeros();
    FramedEnds(s, Zeros());
    FramedEnds(s, one);
    if |s| >= HDR {
      var first, rest := s[..MsgLen(s)], s[MsgLen(s)..];
      HighByteDecides(rest);
      FirstSplit(s, Zeros());
      FirstSplit(s, one);
      var x, y := Split(rest + Zeros(), |rest|), Split(rest + one, |rest|);
      assert ([first] + x)[1..] == x && ([first] + y)[1..] == y;
    } else {
      assert MsgLen(s + Zeros()) == 7 && MsgLen(s + one) == 7 + 0x100;
      assert Split(s + Zeros(), 7) == [(s + Zeros())[..7]] && Split(s + one, 7) == [];
    }
  }

  /** Of an empty transfer an empty message is dispatched, or none. */
  lemma EmptySplits()
    ensures Split([] + Zeros(), 0) == [[]] && Split([] + Zeros()[6 := 1], 0) == []
  {
    var z, one := Zeros(), Zeros()[6 := 1];
    assert [] + z == z && [] + one == one && MsgLen(z) == 0 && MsgLen(one) == 1;
  }

  /** Exactly: the loop ends and the dispatched messages are the same, whatever was in the buffer before, iff the
      transfer is framed by its own bytes. */
  lemma IndependentIff(s: seq<byte>)
    ensures SelfFramed(s) <==>
      forall stale: seq<byte>, other: seq<byte> | |stale| >= HDR && |other| >= HDR ::
        Ends(s + stale, |s|) && Ends(s + other, |s|) && Split(s + stale, |s|) == Split(s + other, |s|)
  {
    if SelfFramed(s) {
      forall stale: seq<byte>, other: seq<byte> | |stale| >= HDR && |other| >= HDR
        ensures Ends(s + stale, |s|) && Ends(s + other, |s|) && Split(s + stale, |s|) == Split(s + other, |s|)
      {
        SelfFramedSplits(s, stale);
        SelfFramedSplits(s, other);
      }
    } else if s == [] {
      EmptySplits();
      var z, one := Zeros(), Zeros()[6 := 1];
      assert |z| >= HDR && |one| >= HDR && Split(s + z, 0) != Split(s + one, 0);
    } else if Framed(s) {
      HighByteDecides(s);
      var z, one := Zeros(), [1] + Zeros();
      assert |z| >= HDR && |one| >= HDR && Split(s + z, |s|) != Split(s + one, |s|);
    } else {
      UnframedNeverEnds(s);
      var z := Zeros();
      assert |z| >= HDR && !Ends(s + z, |s|);
    }
  }

  lemma OneOff(done: seq<seq<byte>>, buf: seq<byte>, n: nat)
    requires |buf| >= n + HDR && Ends(buf, n) && MsgLen(buf) <= n
    ensures var k := MsgLen(buf);
      && (k == n ==> done + Split(buf, n) == done + [buf[..k]])
      && (k < n ==> Ends(buf[k..], n - k) && done + Split(buf, n) == (done + [buf[..k]]) + Split(buf[k..], n - k))
  {
  }

  /** `dispatch_received_msg` on the first `n` bytes of a buffer */
  method DispatchReceivedMsg(buf: seq<byte>, n: nat) returns (dispatched: seq<seq<byte>>)
    requires |buf| >= n + HDR && Ends(buf, n)
    ensures dispatched == Split(buf, n)
  {
    if MsgLen(buf) == n {
      return [buf[..n]];
    }
    dispatched := [];
    var rest, left := buf, n;
    while true
      invariant 0 <= left && |rest| >= left + HDR && Ends(rest, left)
      invariant dispatched + Split(rest, left) == Split(buf, n)
      invariant left == 0 ==> MsgLen(rest) > 0
      decreases left
    {
      var k := MsgLen(rest);
      if k > left {
        break;
      }
      OneOff(dispatched, rest, left);
      dispatched := dispatched + [rest[..k]];
      rest, left := rest[k..], left - k;
      if left <= 0 {
        break;
      }
    }
  }
}
