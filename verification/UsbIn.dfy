/** IN transfers of the USB device driver
    (firmware/atmel_softpack_libraries/libchip_sam3s/source/USBD_HAL.c): one packet per interrupt, from one or two
    FIFO banks. */
module UsbIn {

  type byte = bv8

  function Min(a: nat, b: nat): nat {
    if a < b then a else b
  }

  /** Where the `i`-th piece of a length begins. */
  function Offset(size: nat, i: nat): nat {
    if i == 0 then 0 else Offset(size, i - 1) + size
  }

  lemma {:induction false} OffsetIs(size: nat, i: nat)
    ensures Offset(size, i) == i * size
  {
    if i > 0 {
      OffsetIs(size, i - 1);
    }
  }

  /** The `i`-th piece of the data; the last one may be shorter, and those after it are empty. */
  function Piece(data: seq<byte>, size: nat, i: nat): (p: seq<byte>)
    ensures |p| <= size
  {
    data[Min(Offset(size, i), |data|)..Min(Offset(size, i) + size, |data|)]
  }

  function Pieces(data: seq<byte>, size: nat, n: nat): (p: seq<seq<byte>>)
    ensures |p| == n
  {
    if n == 0 then [] else Pieces(data, size, n - 1) + [Piece(data, size, n - 1)]
  }

  function Joined(packets: seq<seq<byte>>): seq<byte> {
    if packets == [] then [] else Joined(packets[..|packets| - 1]) + packets[|packets| - 1]
  }

  /** The first `n` pieces are a prefix of the data. */
  lemma {:induction false} PiecesJoined(data: seq<byte>, size: nat, n: nat)
    ensures Joined(Pieces(data, size, n)) == data[..Min(Offset(size, n), |data|)]
  {
    if n > 0 {
      PiecesJoined(data, size, n - 1);
      assert Pieces(data, size, n)[..n - 1] == Pieces(data, size, n - 1);
      assert data[..Min(Offset(size, n - 1), |data|)] + Piece(data, size, n - 1)
          == data[..Min(Offset(size, n), |data|)];
    }
  }

  /** After `n` packets a transfer is complete: all is sent, and on a control endpoint the last packet is not full. */
  predicate Complete(length: nat, size: nat, control: bool, n: nat) {
    n >= 1 && if control then length < Offset(size, n) else length <= Offset(size, n)
  }

  /** The number of packets of a transfer. */
  function PacketCount(length: nat, size: nat, control: bool): (n: nat)
    requires size > 0
    ensures Complete(length, size, control, n)
    ensures n > 1 ==> !Complete(length, size, control, n - 1)
  {
    CountFrom(length, size, control, 1)
  }

  function CountFrom(length: nat, size: nat, control: bool, k: nat): (n: nat)
    requires size > 0 && k >= 1 && (k > 1 ==> !Complete(length, size, control, k - 1))
    ensures n >= k && Complete(length, size, control, n)
    ensures n > 1 ==> !Complete(length, size, control, n - 1)
    decreases if length >= Offset(size, k) then length - Offset(size, k) + 1 else 0
  {
    if Complete(length, size, control, k) then k else CountFrom(length, size, control, k + 1)
  }

  lemma {:induction false} OffsetGrows(size: nat, a: nat, b: nat)
    requires a <= b
    ensures Offset(size, a) <= Offset(size, b)
  {
    if a < b {
      OffsetGrows(size, a, b - 1);
    }
  }

  /** A non-control transfer of T bytes in packets of S takes max(1, ceil(T/S)) packets, a control transfer
      floor(T/S) + 1. */
  lemma CountFormula(length: nat, size: nat, control: bool)
    requires size > 0
    ensures PacketCount(length, size, control)
      == if control then length / size + 1 else if length == 0 then 1 else (length - 1) / size + 1
  {
    var n := PacketCount(length, size, control);
    OffsetIs(size, n);
    OffsetIs(size, n - 1);
    var m := if control || length == 0 then length else length - 1;
    assert (n - 1) * size <= m < n * size;
    QuotientIs(m, size, n - 1);
  }

  lemma Monotone(a: nat, b: nat, size: nat)
    ensures a <= b ==> a * size <= b * size
  {
  }

  lemma QuotientIs(m: nat, size: nat, q: nat)
    requires size > 0 && q * size <= m < (q + 1) * size
    ensures m / size == q
  {
    var d := m / size;
    assert d * size <= m < (d + 1) * size;
    Monotone(d + 1, q, size);
    Monotone(q + 1, d, size);
  }

  /** The packets of a transfer carry the data, in order, and nothing else; the last one of a control transfer is not
      full, and no packet of another transfer but its only one is empty. */
  lemma TransferIsData(data: seq<byte>, size: nat, control: bool)
    requires size > 0
    ensures var n := PacketCount(|data|, size, control);
      && Joined(Pieces(data, size, n)) == data
      && (control ==> |Piece(data, size, n - 1)| < size)
      && (!control && n > 1 ==> Piece(data, size, n - 1) != [])
  {
    PiecesJoined(data, size, PacketCount(|data|, size, control));
  }

  /** The next piece begins where the ones before it end. */
  lemma PieceAt(data: seq<byte>, size: nat, i: nat)
    ensures var pos := Min(Offset(size, i), |data|);
      && Piece(data, size, i) == data[pos..pos + Min(size, |data| - pos)]
      && Min(Offset(size, i + 1), |data|) == pos + |Piece(data, size, i)|
  {
  }

  /** The states of an endpoint that concern single transfers. */
  datatype State = Idle | Sending | Receiving

  /** What the callback of a transfer is told. */
  datatype Outcome = Outcome(transferred: int, remaining: int)

  /** An endpoint and its hardware: `fifo` is the bank being filled, `packets` what the current transfer has released
      for transmission. */
  class Endpoint {
    const size: nat
    const banks: nat
    const control: bool
    var state: State

    var data: seq<byte>
    var pos: nat
    var transferred: int
    var buffered: int
    var remaining: int

    var fifo: seq<byte>
    var packets: seq<seq<byte>>
    var outcomes: seq<Outcome>

    constructor (size0: nat, banks0: nat, control0: bool)
      requires size0 > 0 && banks0 in {1, 2}
      ensures size == size0 && banks == banks0 && control == control0
      ensures state == Idle && fifo == [] && packets == [] && outcomes == []
    {
      size, banks, control, state := size0, banks0, control0, Idle;
      data, pos, transferred, buffered, remaining := [], 0, -1, -1, -1;
      fifo, packets, outcomes := [], [], [];
    }

    /** `k` packets of the transfer are released, and the transmission of the last of them is awaited; with two banks
        the next piece is already in the other one. */
    ghost predicate Running(k: nat)
      reads this
    {
      && size > 0 && banks in {1, 2} && state == Sending
      && 1 <= k <= PacketCount(|data|, size, control)
      && packets == Pieces(data, size, k)
      && fifo == (if banks == 2 then Piece(data, size, k) else [])
      && pos == Min(Offset(size, if banks == 2 then k + 1 else k), |data|)
      && transferred == Offset(size, k - 1)
      && buffered == pos - Offset(size, k - 1)
      && remaining == |data| - pos
    }

    /** Nothing is lost or counted twice. */
    lemma Accounted(k: nat)
      requires Running(k)
      ensures transferred + buffered + remaining == |data|
      ensures Joined(packets) + fifo == data[..pos]
    {
      PiecesJoined(data, size, k);
      if banks == 2 {
        PiecesJoined(data, size, k + 1);
        assert Pieces(data, size, k + 1)[..k] == packets;
      } else {
        assert Joined(packets) + [] == Joined(packets);
      }
    }

    /** `UDP_WritePayload` */
    method WritePayload()
      requires 0 <= remaining && pos + remaining == |data|
      modifies `pos, `buffered, `remaining, `fifo
      ensures var n := Min(size, old(remaining));
        && pos == old(pos) + n && buffered == old(buffered) + n && remaining == old(remaining) - n
        && fifo == old(fifo) + data[old(pos)..pos]
    {
      var n := size;
      if n > remaining {
        n := remaining;
      }
      buffered := buffered + n;
      remaining := remaining - n;
      ghost var from := pos;
      while n > 0
        invariant 0 <= n && from <= pos && pos + n == from + Min(size, old(remaining)) <= |data|
        invariant fifo == old(fifo) + data[from..pos]
        invariant buffered == old(buffered) + Min(size, old(remaining))
        invariant remaining == old(remaining) - Min(size, old(remaining))
      {
        assert data[from..pos + 1] == data[from..pos] + [data[pos]];
        fifo := fifo + [data[pos]];
        pos := pos + 1;
        n := n - 1;
      }
    }

    /** TXPKTRDY: the bank being filled is released. */
    method Release()
      modifies `fifo, `packets
      ensures packets == old(packets) + [old(fifo)] && fifo == []
    {
      packets, fifo := packets + [fifo], [];
    }

    /** `UDP_Write` */
    method Write(source: seq<byte>) returns (ok: bool)
      requires size > 0 && banks in {1, 2}
      requires state == Idle ==> fifo == []
      modifies this
      ensures ok == (old(state) == Idle) && outcomes == old(outcomes)
      ensures ok ==> data == source && Running(1)
      ensures !ok ==> unchanged(this)
    {
      if state != Idle {
        return false;
      }
      data, pos, packets := source, 0, [];
      remaining, buffered, transferred := |source|, 0, 0;
      state := Sending;
      WritePayload();
      assert fifo == Piece(data, size, 0);
      Release();
      assert packets == Pieces(data, size, 0) + [Piece(data, size, 0)];
      if banks > 1 && remaining > 0 {
        WritePayload();
      }
      ok := true;
    }

    /** `UDP_IsTransferFinished` */
    method IsTransferFinished() returns (finished: bool)
      ensures finished == if control then buffered < size else buffered <= size && remaining == 0
    {
      if control {
        finished := buffered < size;
      } else {
        finished := buffered <= size && remaining == 0;
      }
    }

    /** `UDP_EndOfTransfer`: in both directions; nothing happens if there is no transfer. */
    method EndOfTransfer()
      modifies `state, `transferred, `buffered, `remaining, `outcomes
      ensures state == Idle
      ensures outcomes
        == old(outcomes) + if old(state) == Idle then [] else [Outcome(old(transferred), old(remaining + buffered))]
      ensures old(state) == Idle ==> unchanged(this)
    {
      if state != Receiving && state != Sending {
        return;
      }
      var done, left := transferred, remaining + buffered;
      state := Idle;
      transferred, buffered, remaining := -1, -1, -1;
      outcomes := outcomes + [Outcome(done, left)];
    }

    /** The transmission of packet `k` is complete: the IN branch of `UDP_EndpointHandler`. */
    method OnTxComplete(ghost k: nat)
      requires Running(k)
      modifies this
      ensures data == old(data)
      ensures var n := PacketCount(|data|, size, control);
        && (k < n ==> Running(k + 1) && outcomes == old(outcomes))
        && (k == n ==> state == Idle && fifo == [] && packets == Pieces(data, size, n)
                       && outcomes == old(outcomes) + [Outcome(|data|, 0)])
    {
      FinishedIff(k);
      var finished := IsTransferFinished();
      if finished {
        transferred := transferred + buffered;
        buffered := 0;
        EndOfTransfer();
      } else {
        NextPacket(k);
      }
    }

    method NextPacket(ghost k: nat)
      requires Running(k) && k < PacketCount(|data|, size, control)
      modifies `transferred, `buffered, `remaining, `pos, `fifo, `packets
      ensures Running(k + 1)
    {
      transferred := transferred + size;
      buffered := buffered - size;
      if banks == 1 {
        NextOfOne(k);
      } else {
        NextOfTwo(k);
      }
    }

    /** `k` packets are complete and counted, and there are more. */
    ghost predicate Counted(k: nat)
      reads this
    {
      && size > 0 && banks in {1, 2} && state == Sending && 1 <= k < PacketCount(|data|, size, control)
      && packets == Pieces(data, size, k) && fifo == (if banks == 2 then Piece(data, size, k) else [])
      && pos == Min(Offset(size, if banks == 2 then k + 1 else k), |data|)
      && transferred == Offset(size, k) && buffered == pos - Offset(size, k) && remaining == |data| - pos
    }

    method NextOfOne(ghost k: nat)
      requires Counted(k) && banks == 1
      modifies `buffered, `remaining, `pos, `fifo, `packets
      ensures Running(k + 1)
    {
      PieceAt(data, size, k);
      FillAndRelease(Piece(data, size, k));
    }

    method NextOfTwo(ghost k: nat)
      requires Counted(k) && banks == 2
      modifies `buffered, `remaining, `pos, `fifo, `packets
      ensures Running(k + 1)
    {
      PieceAt(data, size, k + 1);
      ReleaseAndFill(Piece(data, size, k + 1));
    }

    /** No double buffering. */
    method FillAndRelease(ghost piece: seq<byte>)
      requires 0 <= remaining && pos + remaining == |data| && fifo == []
      requires piece == data[pos..pos + Min(size, remaining)]
      modifies `buffered, `remaining, `pos, `fifo, `packets
      ensures packets == old(packets) + [piece] && fifo == []
      ensures var n := |piece|; pos == old(pos) + n && buffered == old(buffered) + n && remaining == old(remaining) - n
    {
      WritePayload();
      assert fifo == piece;
      Release();
    }

    /** Double buffering: the other bank is full already. */
    method ReleaseAndFill(ghost piece: seq<byte>)
      requires 0 <= remaining && pos + remaining == |data| && piece == data[pos..pos + Min(size, remaining)]
      modifies `buffered, `remaining, `pos, `fifo, `packets
      ensures packets == old(packets) + [old(fifo)] && fifo == piece
      ensures var n := |piece|; pos == old(pos) + n && buffered == old(buffered) + n && remaining == old(remaining) - n
    {
      Release();
      WritePayload();
    }

    /** The test for the end holds exactly after the last packet. */
    lemma FinishedIff(k: nat)
      requires Running(k)
      ensures k == PacketCount(|data|, size, control)
        <==> if control then buffered < size else buffered <= size && remaining == 0
      ensures k == PacketCount(|data|, size, control) ==> remaining == 0
    {
      var n := PacketCount(|data|, size, control);
      if k < n {
        OffsetGrows(size, k, n - 1);
      }
    }

    /** A transfer with the interrupts it causes: exactly as many packets as it takes, which carry the data. */
    method Transfer(source: seq<byte>)
      requires size > 0 && banks in {1, 2} && state == Idle && fifo == []
      modifies this
      ensures state == Idle && fifo == [] && packets == Pieces(source, size, PacketCount(|source|, size, control))
      ensures Joined(packets) == source
      ensures outcomes == old(outcomes) + [Outcome(|source|, 0)]
    {
      ghost var n := PacketCount(|source|, size, control);
      var started := Write(source);
      ghost var k := 1;
      while state == Sending
        invariant data == source && 1 <= k <= n + 1
        invariant k <= n ==> Running(k) && outcomes == old(outcomes)
        invariant k == n + 1 ==>
          && state == Idle && fifo == [] && packets == Pieces(source, size, n)
          && outcomes == old(outcomes) + [Outcome(|source|, 0)]
        decreases n + 1 - k
      {
        OnTxComplete(k);
        k := k + 1;
      }
      TransferIsData(source, size, control);
    }
  }
}
