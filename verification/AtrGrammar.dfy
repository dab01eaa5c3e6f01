/** Answer-to-Reset (section 8.2 of ISO/IEC 7816-3:2006) as a structure, and what the sniffer makes of it. */
module AtrGrammar {
  import opened Iso7816
  import opened SniffSpec

  datatype Opt = No | Yes(b: byte)

  /** Interface bytes: groups linked by TD bytes; `proto` is the low nibble of the TD. */
  datatype Chain =
    | Last(ta: Opt, tb: Opt, tc: Opt)
    | Linked(ta: Opt, tb: Opt, tc: Opt, proto: byte, rest: Chain)

  datatype AtrTree = AtrTree(ts: byte, chain: Chain, hist: seq<byte>, tck: Opt)

  /** The indicator Y of a group. */
  function Y(c: Chain): byte {
    (if c.ta.Yes? then 0x10 else 0) | (if c.tb.Yes? then 0x20 else 0)
    | (if c.tc.Yes? then 0x40 else 0) | (if c.Linked? then 0x80 else 0)
  }

  function OptBytes(o: Opt): seq<byte> {
    if o.Yes? then [o.b] else []
  }

  /** The interface bytes of a chain from the field with the given rank on (0: TA, ..., 3: TD). */
  function ChainFrom(c: Chain, rank: nat): seq<byte>
    decreases c, 4 - rank
  {
    if rank == 0 then OptBytes(c.ta) + ChainFrom(c, 1)
    else if rank == 1 then OptBytes(c.tb) + ChainFrom(c, 2)
    else if rank == 2 then OptBytes(c.tc) + ChainFrom(c, 3)
    else if rank == 3 && c.Linked? then [Y(c.rest) | c.proto] + ChainFrom(c.rest, 0)
    else []
  }

  function Encode(a: AtrTree): seq<byte>
    requires |a.hist| < 16
  {
    [a.ts, Y(a.chain) | (|a.hist| as byte)] + (ChainFrom(a.chain, 0) + (a.hist + OptBytes(a.tck)))
  }

  /** The protocols named by the TD bytes. */
  function Protocols(c: Chain): set<byte> {
    if c.Last? then {} else {c.proto} + Protocols(c.rest)
  }

  predicate ProtosOk(c: Chain) {
    c.Linked? ==> c.proto < 16 && ProtosOk(c.rest)
  }

  /** A well-formed ATR: TS and at most 32 bytes, TCK being present iff a TD names a protocol other than T=0
      (sections 8.2.1 and 8.2.5). */
  predicate WellFormed(a: AtrTree) {
    && a.ts in {0x3b, 0x3f} && |a.hist| < 16 && ProtosOk(a.chain)
    && (a.tck.Yes? <==> Protocols(a.chain) - {0} != {})
    && |Encode(a)| <= 33
  }

  /** The waiting integer: TC of the second group, if there is one and it is not zero. */
  function Tc2(c: Chain): Opt {
    if c.Linked? then c.rest.tc else No
  }

  function WiOf(c: Chain): nat {
    if Tc2(c).Yes? && Tc2(c).b != 0 then Tc2(c).b as int else 10
  }

  lemma IndicatorBits(c: Chain, low: byte)
    requires low < 16
    ensures var b := Y(c) | low;
      && b & 0xf0 == Y(c) && b & 0x0f == low
      && (Y(c) & 0x10 != 0 <==> c.ta.Yes?) && (Y(c) & 0x20 != 0 <==> c.tb.Yes?)
      && (Y(c) & 0x40 != 0 <==> c.tc.Yes?) && (Y(c) & 0x80 != 0 <==> c.Linked?)
  {
    var t1: byte := if c.ta.Yes? then 0x10 else 0;
    var t2: byte := if c.tb.Yes? then 0x20 else 0;
    var t3: byte := if c.tc.Yes? then 0x40 else 0;
    var t4: byte := if c.Linked? then 0x80 else 0;
    BitsOf(t1, t2, t3, t4, low);
  }

  lemma BitsOf(t1: byte, t2: byte, t3: byte, t4: byte, low: byte)
    requires t1 == 0 || t1 == 0x10
    requires t2 == 0 || t2 == 0x20
    requires t3 == 0 || t3 == 0x40
    requires t4 == 0 || t4 == 0x80
    requires low < 16
    ensures var y := t1 | t2 | t3 | t4;
      && (y | low) & 0xf0 == y && (y | low) & 0x0f == low
      && (y & 0x10 != 0 <==> t1 != 0) && (y & 0x20 != 0 <==> t2 != 0)
      && (y & 0x40 != 0 <==> t3 != 0) && (y & 0x80 != 0 <==> t4 != 0)
  {
  }
}
