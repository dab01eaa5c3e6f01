/** What both ISO/IEC 7816-3 implementations of the firmware share: bytes, checksums, rate tables. */
module Iso7816 {

  type byte = bv8

  function XorAll(s: seq<byte>): byte {
    if s == [] then 0 else s[0] ^ XorAll(s[1..])
  }

  lemma {:induction false} XorConcat(a: seq<byte>, b: seq<byte>)
    ensures XorAll(a + b) == XorAll(a) ^ XorAll(b)
  {
    if a == [] {
      assert a + b == b;
    } else {
      assert (a + b)[1..] == a[1..] + b;
      XorConcat(a[1..], b);
    }
  }

  function High(b: byte): (n: nat)
    ensures n < 16
  {
    (b >> 4) as int
  }

  function Low(b: byte): (n: nat)
    ensures n < 16
  {
    (b & 0x0f) as int
  }

  /** The two halves of a byte. */
  lemma Halves(b: byte)
    ensures b as int == 16 * High(b) + Low(b)
  {
    assert b == (b >> 4) * 16 + (b & 0x0f);
  }

  /** SW1 is 6X or 9X (section 10.3.3 of ISO/IEC 7816-3:2006). */
  predicate StatusByte(b: byte) {
    0x60 <= b <= 0x6f || 0x90 <= b <= 0x9f
  }

  /** The number of data bytes a card sends for P3: 0 stands for 256 (section 10.3.2). */
  function DataBytes(p3: byte): nat {
    if p3 == 0 then 256 else p3 as int
  }

  // ---------------------------------------------------------------- firmware/libcommon/source/iso7816_fidi.c

  /** Table 7 of ISO/IEC 7816-3:2006 */
  const FI_TABLE: seq<nat> := [372, 372, 558, 744, 1116, 1488, 1860, 0, 0, 512, 768, 1024, 1536, 2048, 0, 0]

  /** Table 8 of ISO/IEC 7816-3:2006, with the values of the 1997 edition from index 10 on */
  const DI_TABLE: seq<nat> := [0, 1, 2, 4, 8, 16, 32, 64, 12, 20, 2, 4, 8, 16, 32, 64]

  const EINVAL := 22

  /** `iso7816_3_compute_fd_ratio` */
  function FdRatio(f: nat, d: nat): int {
    if f >= |FI_TABLE| || d >= |DI_TABLE| then -EINVAL
    else if FI_TABLE[f] == 0 || DI_TABLE[d] == 0 then -EINVAL
    else if d < 10 then FI_TABLE[f] / DI_TABLE[d]
    else FI_TABLE[f] * DI_TABLE[d]
  }

  /** What the tables are: F is 372 times 1, 1, 1.5, 2, 3, 4, 5 and, from index 9 on, 512 times 1, 1.5, 2, 3, 4; 0
      stands for an index that is reserved. */
  function Fi(i: nat): nat {
    if i <= 1 then 372
    else if i == 2 then 372 * 3 / 2
    else if i <= 6 then 372 * (i - 1)
    else if i == 9 then 512
    else if i == 10 then 512 * 3 / 2
    else if 11 <= i <= 13 then 512 * (i - 9)
    else 0
  }

  function Power2(n: nat): nat {
    if n == 0 then 1 else 2 * Power2(n - 1)
  }

  /** D, or its inverse from index 10 on, is a power of two, but 12 and 20 at the indices 8 and 9. */
  function Di(i: nat): nat {
    if 1 <= i <= 7 then Power2(i - 1)
    else if i == 8 then 12
    else if i == 9 then 20
    else if 10 <= i <= 15 then Power2(i - 9)
    else 0
  }

  /** The same with 1 for the reserved index and those of inverses. */
  function WholeD(i: nat): nat {
    if 1 <= i <= 9 then Di(i) else 1
  }

  lemma TablesAre(i: nat)
    requires i < 16
    ensures FI_TABLE[i] == Fi(i) && DI_TABLE[i] == Di(i)
  {
    assert Power2(0) == 1 && Power2(1) == 2 && Power2(2) == 4 && Power2(3) == 8;
    assert Power2(4) == 16 && Power2(5) == 2 * Power2(4) && Power2(6) == 2 * Power2(5);
    assert i == 0 || i == 1 || i == 2 || i == 3 || i == 4 || i == 5 || i == 6 || i == 7 || i == 8 || i == 9 || i == 10
        || i == 11 || i == 12 || i == 13 || i == 14 || i == 15;
  }

  /** A ratio exists iff neither index is reserved; it is F/D rounded down where D is a divisor, and F times the table
      value where that is the inverse of D. */
  lemma RatioIs(f: nat, d: nat)
    ensures var r := FdRatio(f, d);
      && (r > 0 <==> Fi(f) != 0 && Di(d) != 0)
      && (r <= 0 ==> r == -22)
      && (r > 0 && d < 10 ==> r * Di(d) <= Fi(f) < (r + 1) * Di(d))
      && (r > 0 && d >= 10 ==> r == Fi(f) * Di(d))
  {
    if f < 16 && d < 16 {
      TablesAre(f);
      TablesAre(d);
      if Fi(f) != 0 && Di(d) != 0 {
        Division(FI_TABLE[f], DI_TABLE[d]);
      }
    }
  }

  lemma Division(n: nat, k: nat)
    requires 0 < k <= n
    ensures 0 < n / k && n / k * k <= n < (n / k + 1) * k && n * k > 0
  {
    assert n == n / k * k + n % k;
  }

  /** The UART takes a ratio only if it fits its 11-bit field; otherwise it keeps the old one. */
  function UartRatio(current: nat, f: nat, d: nat): nat {
    var r := FdRatio(f, d);
    if 0 < r <= 0x7ff then r else current
  }

  /** The ratio in force after indices of F and D were asked for, in numbers. */
  function RatioAfter(current: nat, f: nat, d: nat): nat {
    var r := if Fi(f) == 0 || Di(d) == 0 then 0 else if d < 10 then Fi(f) / Di(d) else Fi(f) * Di(d);
    if 1 <= r <= 2047 then r else current
  }

  lemma UartRatioIs(current: nat, f: nat, d: nat)
    ensures UartRatio(current, f, d) == RatioAfter(current, f, d)
  {
    RatioIs(f, d);
    if f < 16 && d < 16 {
      TablesAre(f);
      TablesAre(d);
    }
  }

  const DEFAULT_WI := 10

  /** Waiting time in etu (section 10.2 of ISO/IEC 7816-3:2006). */
  function WaitingTime(wi: nat, d: nat): nat {
    wi * 960 * d
  }

  // ---------------------------------------------------------------- PPS messages (section 9.2)

  /** A PPS request or response; bits 5 to 7 of PPS0 tell which of the parameters are present. */
  datatype PpsMsg = PpsMsg(pps0: byte, p1: byte, p2: byte, p3: byte, pck: byte)

  function PpsBytes(m: PpsMsg): (b: seq<byte>)
    ensures 3 <= |b| <= 6
  {
    [0xff, m.pps0]
    + ((if m.pps0 & 0x10 != 0 then [m.p1] else [])
       + ((if m.pps0 & 0x20 != 0 then [m.p2] else [])
          + ((if m.pps0 & 0x40 != 0 then [m.p3] else []) + [m.pck])))
  }

  datatype PpsField = PPSS | PPS0 | PPS1 | PPS2 | PPS3 | PCK | PpsEnd

  /** PCK makes all bytes XOR to zero. */
  predicate PpsValid(m: PpsMsg) {
    XorAll(PpsBytes(m)) == 0
  }

  /** The field after `f`, given the format byte. */
  function NextPps(f: PpsField, pps0: byte): PpsField {
    if f == PPSS then PPS0
    else if f == PPS0 && pps0 & 0x10 != 0 then PPS1
    else if f in {PPS0, PPS1} && pps0 & 0x20 != 0 then PPS2
    else if f in {PPS0, PPS1, PPS2} && pps0 & 0x40 != 0 then PPS3
    else if f in {PPS0, PPS1, PPS2, PPS3} then PCK
    else PpsEnd
  }

  /** The bytes of a message from the given field on. */
  function PpsFrom(m: PpsMsg, f: PpsField): seq<byte>
    decreases PpsRank(f)
  {
    if f == PpsEnd then []
    else
      [match f
       case PPSS => 0xff
       case PPS0 => m.pps0
       case PPS1 => m.p1
       case PPS2 => m.p2
       case PPS3 => m.p3
       case PCK => m.pck] + PpsFrom(m, NextPps(f, m.pps0))
  }

  function PpsRank(f: PpsField): nat {
    match f
    case PPSS => 6
    case PPS0 => 5
    case PPS1 => 4
    case PPS2 => 3
    case PPS3 => 2
    case PCK => 1
    case PpsEnd => 0
  }

  lemma PpsFromStart(m: PpsMsg)
    ensures PpsFrom(m, PPSS) == PpsBytes(m)
  {
    var p1, p2, p3 := m.pps0 & 0x10 != 0, m.pps0 & 0x20 != 0, m.pps0 & 0x40 != 0;
    PpsFromTail(m, p1, p2, p3);
    assert PpsFrom(m, PPSS) == [0xff] + ([m.pps0] + PpsFrom(m, NextPps(PPS0, m.pps0)));
  }

  lemma PpsFromTail(m: PpsMsg, p1: bool, p2: bool, p3: bool)
    requires p1 == (m.pps0 & 0x10 != 0) && p2 == (m.pps0 & 0x20 != 0) && p3 == (m.pps0 & 0x40 != 0)
    ensures PpsFrom(m, NextPps(PPS0, m.pps0))
      == (if p1 then [m.p1] else []) + ((if p2 then [m.p2] else []) + ((if p3 then [m.p3] else []) + [m.pck]))
  {
    assert PpsFrom(m, PCK) == [m.pck] + PpsFrom(m, PpsEnd) == [m.pck];
    assert PpsFrom(m, PPS3) == [m.p3] + [m.pck];
    assert PpsFrom(m, NextPps(PPS2, m.pps0)) == (if p3 then [m.p3] else []) + [m.pck];
    assert PpsFrom(m, NextPps(PPS1, m.pps0)) == (if p2 then [m.p2] else []) + PpsFrom(m, NextPps(PPS2, m.pps0));
  }
}
