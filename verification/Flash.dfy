/** `FLASHD_Write` (firmware/atmel_softpack_libraries/libchip_sam3s/source/flashd.c): flash is written in whole pages,
    which are erased first. */
module Flash {

  type byte = bv8

  const IFLASH_ADDR := 0x0040_0000
  const PAGE_SIZE := 256

  /** `bytes` in place of what was at `at`. */
  function Spliced(mem: seq<byte>, at: nat, bytes: seq<byte>): (r: seq<byte>)
    requires at + |bytes| <= |mem|
    ensures |r| == |mem|
  {
    mem[..at] + bytes + mem[at + |bytes|..]
  }

  /** One splice after another, end to end, is one splice. */
  lemma SplicedTwice(mem: seq<byte>, at: nat, a: seq<byte>, b: seq<byte>)
    requires at + |a| + |b| <= |mem|
    ensures Spliced(Spliced(mem, at, a), at + |a|, b) == Spliced(mem, at, a + b)
  {
  }

  /** One more byte. */
  lemma SplicedNext(mem: seq<byte>, at: nat, bytes: seq<byte>, i: nat)
    requires at + |bytes| <= |mem| && i < |bytes|
    ensures Spliced(mem, at, bytes[..i])[at + i := bytes[i]] == Spliced(mem, at, bytes[..i + 1])
  {
  }

  /** A page that is rewritten with a piece of it spliced in: the memory with the piece spliced in. */
  lemma PageRewritten(mem: seq<byte>, page: nat, offset: nat, piece: seq<byte>)
    requires offset + |piece| <= PAGE_SIZE && page * PAGE_SIZE + PAGE_SIZE <= |mem|
    ensures var start := page * PAGE_SIZE;
      Spliced(mem, start, Spliced(mem[start..start + PAGE_SIZE], offset, piece)) == Spliced(mem, start + offset, piece)
  {
    var start := page * PAGE_SIZE;
    var old_ := mem[start..start + PAGE_SIZE];
    var l, r := Spliced(mem, start, Spliced(old_, offset, piece)), Spliced(mem, start + offset, piece);
    assert |l| == |r|;
    forall k | 0 <= k < |l| ensures l[k] == r[k] {
    }
  }

  /** What the write leaves alone, and what it puts in place. */
  lemma SplicedIs(mem: seq<byte>, at: nat, bytes: seq<byte>, k: nat)
    requires at + |bytes| <= |mem| && k < |mem|
    ensures Spliced(mem, at, bytes)[k] == if at <= k < at + |bytes| then bytes[k - at] else mem[k]
  {
  }

  lemma EveryByte(mem: seq<byte>, at: nat, bytes: seq<byte>)
    requires at + |bytes| <= |mem|
    ensures forall k :: 0 <= k < |mem| ==>
      Spliced(mem, at, bytes)[k] == if at <= k < at + |bytes| then bytes[k - at] else mem[k]
  {
    forall k | 0 <= k < |mem|
      ensures Spliced(mem, at, bytes)[k] == if at <= k < at + |bytes| then bytes[k - at] else mem[k]
    {
      SplicedIs(mem, at, bytes, k);
    }
  }

  class Controller {
    const mem: array<byte>
    const pageBuffer: array<byte>
    const latch: array<byte>

    ghost predicate Valid()
    {
      && mem.Length % PAGE_SIZE == 0 && pageBuffer.Length == PAGE_SIZE && latch.Length == PAGE_SIZE
      && mem != pageBuffer && mem != latch && pageBuffer != latch
    }

    constructor (pages: nat)
      ensures Valid() && mem.Length == pages * PAGE_SIZE && fresh(mem) && fresh(pageBuffer) && fresh(latch)
    {
      mem, pageBuffer, latch := new byte[pages * PAGE_SIZE], new byte[PAGE_SIZE], new byte[PAGE_SIZE];
    }

    static method CopyInto(to: array<byte>, at: nat, from: seq<byte>)
      requires at + |from| <= to.Length
      modifies to
      ensures to[..] == Spliced(old(to[..]), at, from)
    {
      for i := 0 to |from|
        invariant to[..] == Spliced(old(to[..]), at, from[..i])
      {
        ghost var before := to[..];
        to[at + i] := from[i];
        assert to[..] == before[at + i := from[i]];
        SplicedNext(old(to[..]), at, from, i);
      }
      assert from[..|from|] == from;
    }

    /** Writing to flash addresses, a word of four bytes at a time, fills the latch buffer of the controller. */
    method LoadLatch()
      requires Valid()
      modifies latch
      ensures latch[..] == pageBuffer[..]
    {
      var left, at := PAGE_SIZE, 0;
      while left >= 4
        invariant 0 <= left && at + left == PAGE_SIZE && left % 4 == 0
        invariant latch[..at] == pageBuffer[..at]
      {
        latch[at], latch[at + 1] := pageBuffer[at], pageBuffer[at + 1];
        latch[at + 2], latch[at + 3] := pageBuffer[at + 2], pageBuffer[at + 3];
        at, left := at + 4, left - 4;
      }
      assert latch[..] == latch[..at] && pageBuffer[..] == pageBuffer[..at];
    }

    /** The command "erase and write page" */
    method EraseAndWritePage(page: nat)
      requires Valid() && (page + 1) * PAGE_SIZE <= mem.Length
      modifies mem
      ensures mem[..] == Spliced(old(mem[..]), page * PAGE_SIZE, latch[..])
    {
      CopyInto(mem, page * PAGE_SIZE, latch[..]);
    }

    /** One page: what surrounds the new bytes is read back and written again. */
    method WritePage(page: nat, offset: nat, piece: seq<byte>)
      requires Valid() && offset + |piece| <= PAGE_SIZE && (page + 1) * PAGE_SIZE <= mem.Length
      modifies mem, pageBuffer, latch
      ensures mem[..] == Spliced(old(mem[..]), page * PAGE_SIZE + offset, piece)
    {
      var start := page * PAGE_SIZE;
      var end := offset + |piece|;
      ghost var was := mem[..];
      CopyInto(pageBuffer, 0, mem[start..start + offset]);
      CopyInto(pageBuffer, offset, piece);
      CopyInto(pageBuffer, end, mem[start + end..start + PAGE_SIZE]);
      assert pageBuffer[..] == Spliced(was[start..start + PAGE_SIZE], offset, piece);
      LoadLatch();
      EraseAndWritePage(page);
      PageRewritten(was, page, offset, piece);
    }

    /** `EFC_TranslateAddress` (efc.c) */
    static method TranslateAddress(address: nat) returns (page: nat, offset: nat)
      requires IFLASH_ADDR <= address
      ensures page * 256 + offset == address - 0x40_0000 && offset < 256
    {
      page, offset := (address - IFLASH_ADDR) / PAGE_SIZE, (address - IFLASH_ADDR) % PAGE_SIZE;
    }

    /** At any address and length: the buffer is spliced into the flash, and nothing else changes. */
    method Write(address: nat, buffer: seq<byte>)
      requires Valid() && 0x40_0000 <= address && address + |buffer| <= 0x40_0000 + mem.Length
      modifies mem, pageBuffer, latch
      ensures mem[..] == Spliced(old(mem[..]), address - 0x40_0000, buffer)
      ensures forall k :: 0 <= k < mem.Length ==>
        mem[k] == var i := k - (address - 0x40_0000); if 0 <= i < |buffer| then buffer[i] else old(mem[k])
    {
      ghost var at := address - IFLASH_ADDR;
      var page, offset := TranslateAddress(address);
      var done := 0;
      ghost var was := mem[..];
      while done < |buffer|
        invariant done <= |buffer| && 0 <= offset && 0 <= page
        invariant done < |buffer| ==> page * PAGE_SIZE + offset == at + done && offset < PAGE_SIZE
        invariant mem[..] == Spliced(was, at, buffer[..done])
        decreases |buffer| - done
      {
        var size := WriteNext(page, offset, buffer, at, done, was);
        done := done + size;
        page := page + 1;
        offset := 0;
      }
      assert buffer[..done] == buffer;
      assert mem[..] == Spliced(was, at, buffer);
      EveryByte(was, at, buffer);
      assert forall k :: 0 <= k < mem.Length ==> mem[k] == mem[..][k] && was[k] == old(mem[k]);
    }

    /** As much of the buffer as fits in the page. */
    method WriteNext(page: nat, offset: nat, buffer: seq<byte>, ghost at: nat, done: nat, ghost was: seq<byte>)
      returns (size: nat)
      requires Valid() && done < |buffer| && at + |buffer| <= mem.Length == |was|
      requires page * PAGE_SIZE + offset == at + done && offset < PAGE_SIZE
      requires mem[..] == Spliced(was, at, buffer[..done])
      modifies mem, pageBuffer, latch
      ensures size == if PAGE_SIZE - offset < |buffer| - done then PAGE_SIZE - offset else |buffer| - done
      ensures mem[..] == Spliced(was, at, buffer[..done + size])
    {
      size := if PAGE_SIZE - offset < |buffer| - done then PAGE_SIZE - offset else |buffer| - done;
      WholePages(mem.Length, page, offset);
      WritePage(page, offset, buffer[done..done + size]);
      NextPiece(was, at, buffer, done, size);
    }
  }

  /** A page with a byte in the flash is in the flash. */
  lemma WholePages(length: nat, page: nat, offset: nat)
    requires length % PAGE_SIZE == 0 && page * PAGE_SIZE + offset < length
    ensures (page + 1) * PAGE_SIZE <= length
  {
  }

  lemma NextPiece(mem: seq<byte>, at: nat, buffer: seq<byte>, done: nat, size: nat)
    requires done + size <= |buffer| && at + |buffer| <= |mem|
    ensures Spliced(Spliced(mem, at, buffer[..done]), at + done, buffer[done..done + size])
      == Spliced(mem, at, buffer[..done + size])
  {
    SplicedTwice(mem, at, buffer[..done], buffer[done..done + size]);
    assert buffer[..done] + buffer[done..done + size] == buffer[..done + size];
  }
}
