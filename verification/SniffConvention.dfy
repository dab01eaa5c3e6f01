/** What the sniffer makes of the initial character TS (section 8.1 of ISO/IEC 7816-3:2006). */
module SniffConvention {
  import opened Iso7816
  import opened SniffSpec

  /** The mirrored byte, written out. */
  lemma ConvertBits(b: byte)
    ensures Convert(b) ==
      !( ((b & 0x01) << 7) | ((b & 0x02) << 5) | ((b & 0x04) << 3) | ((b & 0x08) << 1)
       | ((b & 0x10) >> 1) | ((b & 0x20) >> 3) | ((b & 0x40) >> 5) | ((b & 0x80) >> 7))
  {
    var b1, b2, b3 := b >> 1, b >> 2, b >> 3;
    var b4, b5, b6, b7 := b >> 4, b >> 5, b >> 6, b >> 7;
    assert Mirror(b7, 1) == (b7 & 1) << 7;
    assert Mirror(b6, 2) == ((b6 & 1) << 7) | (Mirror(b7, 1) >> 1);
    assert Mirror(b5, 3) == ((b5 & 1) << 7) | (Mirror(b6, 2) >> 1);
    assert Mirror(b4, 4) == ((b4 & 1) << 7) | (Mirror(b5, 3) >> 1);
    assert Mirror(b3, 5) == ((b3 & 1) << 7) | (Mirror(b4, 4) >> 1);
    assert Mirror(b2, 6) == ((b2 & 1) << 7) | (Mirror(b3, 5) >> 1);
    assert Mirror(b1, 7) == ((b1 & 1) << 7) | (Mirror(b2, 6) >> 1);
    assert Mirror(b, 8) == ((b & 1) << 7) | (Mirror(b1, 7) >> 1);
  }

  /** Converting twice gives the byte back. */
  lemma ConvertTwice(b: byte)
    ensures Convert(Convert(b)) == b
  {
    ConvertBits(b);
    ConvertBits(Convert(b));
  }

  /** The initial characters the parser takes, and those that make it switch the conversion. */
  predicate TsTaken(b: byte) {
    b in {0x23, 0x30, 0x3b, 0x3f}
  }

  predicate TsSwitches(b: byte) {
    b in {0x23, 0x30}
  }

  /** A TS that switches the conversion is right iff it is what a valid TS looks like in the other convention.
      Of the two that do, only 0x23 is; the image of 0x3f is 0x03, which the parser rejects. */
  lemma SwitchingTs(s: Sniff, b: byte)
    requires s.iso == WaitAtr && !s.atr.convert
    ensures OnByte(s, b).iso == (if TsTaken(b) then InAtr else WaitAtr)
    ensures OnByte(s, b).atr.convert == TsSwitches(b)
    ensures TsSwitches(b) && Convert(b) in {0x3b, 0x3f} <==> b == 0x23
    ensures Convert(b) in {0x3b, 0x3f} <==> b in {0x23, 0x03}
  {
    ConvertBits(b);
    ConvertTwice(b);
    ConvertBits(0x3b);
    ConvertBits(0x3f);
    assert Convert(0x3b) == 0x23 && Convert(0x3f) == 0x03;
  }

  /** The first byte after a reset is still converted if the last session asked for that: the initial character of a
      well-formed ATR is stored as it was sent, and the parser goes on without conversion, iff the flag is not set. */
  lemma ConversionOutlivesReset(s: Sniff, ts: byte)
    requires ts in {0x3b, 0x3f}
    ensures var s1 := OnResetDeassert(OnResetAssert(s)); var s2 := OnByte(s1, ts);
      && s1.iso == WaitAtr && s1.atr.convert == s.atr.convert
      && (s2.atr.got == [ts] <==> !s.atr.convert)
      && (s2.iso == InAtr && !s2.atr.convert <==> !s.atr.convert)
      && (s.atr.convert && ts == 0x3b ==> s2.iso == InAtr && s2.atr.got == [0x23] && s2.atr.convert)
      && (s.atr.convert && ts == 0x3f ==> s2.iso == WaitAtr && s2.atr.got == [0x03])
  {
    ConvertBits(0x3b);
    ConvertBits(0x3f);
    assert Convert(0x3b) == 0x23 && Convert(0x3f) == 0x03;
    var s1 := OnResetDeassert(OnResetAssert(s));
    var b := if s.atr.convert then Convert(ts) else ts;
    var none: seq<byte> := [];
    assert none + [b] == [b];
    assert OnByte(s1, ts).atr.got == [b];
  }
}
