/** The input processor: it turns a raw Xbox 360 input packet into the packed HID report
    of `XboxReport`.

    Packet layout the processor reads: byte 2 holds the D-pad, Start, Back and the stick
    clicks; byte 3 the bumpers, Guide and A, B, X, Y; bytes 4 and 5 the triggers; bytes
    6-7, 8-9, 10-11 and 12-13 the left X, left Y, right X and right Y axes as little-endian
    int16. Bytes 0 and 1 (message type and length) are never looked at.
 */
module XboxInputProcessor {
  import opened Bits
  import opened XboxReport

  /** The shortest packet the processor translates. */
  const MinPacketLength: nat := 14

  /** Maps an axis from -32768..32767 onto 0..255: `int32_t temp = value + 32768`, then
      `(uint8_t)(temp >> 8)`. temp is never negative, so the shift is a division by 256,
      and the quotient already fits in a byte, so the cast loses nothing. */
  function ConvertAxis(value: int16): (r: byte)
    ensures r == (value + 0x8000) / 0x100
  {
    var temp: int := value as int + 0x8000;
    (temp / 0x100) % 0x100
  }

  lemma ConvertAxisEndpoints()
    ensures ConvertAxis(-0x8000) == 0
    ensures ConvertAxis(0) == 0x80
    ensures ConvertAxis(0x7FFF) == 0xFF
  {
  }

  lemma ConvertAxisMonotonic(a: int16, b: int16)
    requires a <= b
    ensures ConvertAxis(a) <= ConvertAxis(b)
  {
  }

  /** Converting the int16 stored in (lo, hi) gives hi with its top bit flipped, `hi ^ 0x80`:
      the low byte never matters. */
  lemma AxisIsHighByteFlipped(lo: byte, hi: byte)
    ensures ConvertAxis(Int16Le(lo, hi)) == Xor(hi, 0x80)
  {
    var v: int := Int16Le(lo, hi);
    if hi < 0x80 {
      assert v + 0x8000 == lo + 0x100 * (hi + 0x80);
      HighByteOf(lo, hi + 0x80);
    } else {
      assert v + 0x8000 == lo + 0x100 * (hi - 0x80);
      HighByteOf(lo, hi - 0x80);
    }
    FlipTopBit(hi);
  }

  lemma HighByteOf(lo: byte, q: nat)
    ensures (lo + 0x100 * q) / 0x100 == q
  {
  }

  /** `hi ^ 0x80` keeps the low seven bits of hi and inverts its top bit. */
  lemma FlipTopBit(hi: byte)
    ensures Xor(hi, 0x80) == hi % 0x80 + 0x80 * (1 - hi / 0x80)
  {
    Pow2Table();
    XorPow2(hi, 7);
  }

  /** The report a packet of at least 14 bytes translates to: the button word has byte 2
      as its low byte and byte 3 without bit 3 (`& 0xF7`) as its high byte, the triggers
      are bytes 4 and 5, and each stick byte is the converted int16 at offsets 6, 8, 10, 12;
      no axis is inverted. */
  function Translate(p: seq<byte>): (r: Report)
    requires |p| >= MinPacketLength
    ensures r.buttons % 0x100 == p[2] && r.buttons / 0x100 == And(p[3], 0xF7)
    ensures r.leftTrigger == p[4] && r.rightTrigger == p[5]
  {
    var hi: byte := And(p[3], 0xF7);
    WordBytes(p[2], hi);
    Report(
      buttons := p[2] + 0x100 * hi,
      leftX := ConvertAxis(Int16Le(p[6], p[7])),
      leftY := ConvertAxis(Int16Le(p[8], p[9])),
      rightX := ConvertAxis(Int16Le(p[10], p[11])),
      rightY := ConvertAxis(Int16Le(p[12], p[13])),
      leftTrigger := p[4],
      rightTrigger := p[5])
  }

  /** In memory the button word is byte 2 followed by byte 3 with bit 3 cleared. */
  lemma ButtonWordBytes(p: seq<byte>)
    requires |p| >= MinPacketLength
    ensures Le16(Translate(p).buttons) == [p[2], And(p[3], 0xF7)]
  {
    var lo, hi := p[2], And(p[3], 0xF7);
    var w := lo + 0x100 * hi;
    assert w % 0x100 == lo && w / 0x100 == hi;
  }

  /** The packet byte each button is read from. */
  function WireByte(b: Button): (i: nat)
    ensures i == 2 || i == 3
  {
    if Position(b) < 8 then 2 else 3
  }

  /** The bit of that byte each button is read from. */
  function WireBit(b: Button): (k: nat)
    ensures k < 8 && (WireByte(b) == 3 ==> k != 3)
  {
    if Position(b) < 8 then Position(b) else Position(b) - 8
  }

  /** Bits of `x & 0xF7`: all of x's bits except bit 3. */
  lemma ClearBit3(x: byte, k: nat)
    ensures BitSet(And(x, 0xF7), k) <==> BitSet(x, k) && k < 8 && k != 3
  {
    AndBits(x, 0xF7, k);
    Pow2Table();
    SplitBits(0x7, 0xF, 4, k);
    LowOnesBits(3, k);
    if k >= 4 {
      LowOnesBits(4, k - 4);
    }
    if k >= 8 {
      NoBitsAbove(x, 8, k);
    }
  }

  /** The button word has, for every button, the button's bit set exactly when the packet
      has the button's wire bit set. */
  lemma ButtonFromPacket(p: seq<byte>, b: Button)
    requires |p| >= MinPacketLength
    ensures BitSet(Translate(p).buttons, Position(b)) <==> BitSet(p[WireByte(b)], WireBit(b))
  {
    Pow2Table();
    SplitBits(p[2], And(p[3], 0xF7), 8, Position(b));
    ClearBit3(p[3], WireBit(b));
  }

  /** Bit 11 of the button word is always clear: byte 3, bit 3 is ignored. */
  lemma Bit11Clear(p: seq<byte>)
    requires |p| >= MinPacketLength
    ensures !BitSet(Translate(p).buttons, 11)
    ensures And(Translate(p).buttons, 0xF7FF) == Translate(p).buttons
  {
    Pow2Table();
    var w := Translate(p).buttons;
    SplitBits(p[2], And(p[3], 0xF7), 8, 11);
    ClearBit3(p[3], 3);
    forall k | 0 <= k < 16
      ensures BitSet(And(w, 0xF7FF), k) <==> BitSet(w, k)
    {
      AndBits(w, 0xF7FF, k);
      BitsOfF7FF(k);
      SplitBits(p[2], And(p[3], 0xF7), 8, k);
      if k >= 8 {
        ClearBit3(p[3], k - 8);
      }
    }
    BitsDetermine(And(w, 0xF7FF), w, 16);
  }

  /** Each stick byte is the axis's high byte with its top bit flipped. */
  lemma SticksAreFlippedHighBytes(p: seq<byte>)
    requires |p| >= MinPacketLength
    ensures Translate(p).leftX == Xor(p[7], 0x80) && Translate(p).leftY == Xor(p[9], 0x80)
    ensures Translate(p).rightX == Xor(p[11], 0x80) && Translate(p).rightY == Xor(p[13], 0x80)
  {
    AxisIsHighByteFlipped(p[6], p[7]);
    AxisIsHighByteFlipped(p[8], p[9]);
    AxisIsHighByteFlipped(p[10], p[11]);
    AxisIsHighByteFlipped(p[12], p[13]);
  }

  /** Only bytes 2-13 matter: bytes 0-1 and any byte past 13 never change the report. */
  lemma TranslateReadsOnlyPayload(p: seq<byte>, q: seq<byte>)
    requires |p| >= MinPacketLength && |q| >= MinPacketLength
    requires p[2..MinPacketLength] == q[2..MinPacketLength]
    ensures Translate(p) == Translate(q)
  {
    assert forall i :: 2 <= i < MinPacketLength ==> p[i] == p[2..MinPacketLength][i - 2];
    assert forall i :: 2 <= i < MinPacketLength ==> q[i] == q[2..MinPacketLength][i - 2];
  }

  /** A worked packet: Start (byte 2 bit 4) and A (byte 3 bit 4) pressed, triggers 0x80 and
      0x40, and all four axes at 0x8000 = -32768, which converts to 0. */
  lemma TranslateExample()
    ensures Translate([0x00, 0x14, 0x10, 0x10, 0x80, 0x40, 0x00, 0x80, 0x00, 0x80, 0x00, 0x80, 0x00, 0x80])
      == Report(StartMask + AMask, 0, 0, 0, 0, 0x80, 0x40)
  {
    ClearBit3Of0x10();
  }

  lemma ClearBit3Of0x10()
    ensures And(0x10, 0xF7) == 0x10
  {
    assert And(0x01, 0x0F) == 1;
    assert And(0x02, 0x1E) == 2;
    assert And(0x04, 0x3D) == 4;
    assert And(0x08, 0x7B) == 8;
  }

  /** What a test adds to a word: the mask when the test holds, nothing otherwise. */
  function Contribution(test: bool, mask: nat): (r: nat)
    ensures r <= mask
  {
    if test then mask else 0
  }

  /** Byte 2 as the weighted sum of the eight tests the processor performs on it. */
  lemma LowByteTests(x: byte)
    ensures x ==
      Contribution(And(x, 0x01) != 0, 0x01) + Contribution(And(x, 0x02) != 0, 0x02)
      + Contribution(And(x, 0x04) != 0, 0x04) + Contribution(And(x, 0x08) != 0, 0x08)
      + Contribution(And(x, 0x10) != 0, 0x10) + Contribution(And(x, 0x20) != 0, 0x20)
      + Contribution(And(x, 0x40) != 0, 0x40) + Contribution(And(x, 0x80) != 0, 0x80)
  {
    SingleBitTests(x);
    ByteAsBitSum(x);
  }

  /** Byte 3 without bit 3, shifted into the high byte of the word, as the sum of the seven
      tests the processor performs on byte 3. */
  lemma HighByteTests(x: byte)
    ensures 0x100 * And(x, 0xF7) ==
      Contribution(And(x, 0x01) != 0, 0x0100) + Contribution(And(x, 0x02) != 0, 0x0200)
      + Contribution(And(x, 0x04) != 0, 0x0400) + Contribution(And(x, 0x10) != 0, 0x1000)
      + Contribution(And(x, 0x20) != 0, 0x2000) + Contribution(And(x, 0x40) != 0, 0x4000)
      + Contribution(And(x, 0x80) != 0, 0x8000)
  {
    var h := And(x, 0xF7);
    assert h <= x;
    SingleBitTests(x);
    ByteAsBitSum(h);
    ClearBit3(x, 0);
    ClearBit3(x, 1);
    ClearBit3(x, 2);
    ClearBit3(x, 3);
    ClearBit3(x, 4);
    ClearBit3(x, 5);
    ClearBit3(x, 6);
    ClearBit3(x, 7);
  }

  lemma SingleBitTests(x: byte)
    ensures (And(x, 0x01) != 0 <==> BitSet(x, 0)) && (And(x, 0x02) != 0 <==> BitSet(x, 1))
    ensures (And(x, 0x04) != 0 <==> BitSet(x, 2)) && (And(x, 0x08) != 0 <==> BitSet(x, 3))
    ensures (And(x, 0x10) != 0 <==> BitSet(x, 4)) && (And(x, 0x20) != 0 <==> BitSet(x, 5))
    ensures (And(x, 0x40) != 0 <==> BitSet(x, 6)) && (And(x, 0x80) != 0 <==> BitSet(x, 7))
  {
    Pow2Table();
    SingleBitTest(x, 0);
    SingleBitTest(x, 1);
    SingleBitTest(x, 2);
    SingleBitTest(x, 3);
    SingleBitTest(x, 4);
    SingleBitTest(x, 5);
    SingleBitTest(x, 6);
    SingleBitTest(x, 7);
  }

  /** One step of the processor: `if (test) buttons |= mask` for the button's constant.
      While every bit set so far lies below the constant, the step adds the constant's
      weight exactly when the test holds. */
  method SetIfPressed(buttons: uint16, test: nat, mask: uint16) returns (r: uint16)
    requires IsButtonMask(mask)
    ensures buttons < mask ==> r == buttons + Contribution(test != 0, mask)
  {
    r := buttons;
    if test != 0 {
      ghost var b := ButtonOf(mask);
      Pow2Table();
      MaskIsSingleBit(b);
      OrBelow(r, mask, 16);
      if buttons < mask {
        OrAbove(r, Position(b));
      }
      r := Or(r, mask);
    }
  }

  /** The button block of `ProcessXboxInput`: one `if (byte & bit) buttons |= constant` for
      each of the fifteen buttons, bytes 2 and 3 read as x2 and x3. The word it builds is
      byte 2 as low byte and byte 3 without bit 3 as high byte. */
  method DecodeButtons(x2: byte, x3: byte) returns (buttons: uint16)
    ensures buttons == x2 + 0x100 * And(x3, 0xF7)
  {
    buttons := 0;

    buttons := SetIfPressed(buttons, And(x2, 0x01), DpadUpMask);
    buttons := SetIfPressed(buttons, And(x2, 0x02), DpadDownMask);
    buttons := SetIfPressed(buttons, And(x2, 0x04), DpadLeftMask);
    buttons := SetIfPressed(buttons, And(x2, 0x08), DpadRightMask);
    buttons := SetIfPressed(buttons, And(x2, 0x10), StartMask);
    buttons := SetIfPressed(buttons, And(x2, 0x20), BackMask);
    buttons := SetIfPressed(buttons, And(x2, 0x40), LeftStickMask);
    buttons := SetIfPressed(buttons, And(x2, 0x80), RightStickMask);

    buttons := SetIfPressed(buttons, And(x3, 0x01), LeftBumperMask);
    buttons := SetIfPressed(buttons, And(x3, 0x02), RightBumperMask);
    buttons := SetIfPressed(buttons, And(x3, 0x04), GuideMask);
    buttons := SetIfPressed(buttons, And(x3, 0x10), AMask);
    buttons := SetIfPressed(buttons, And(x3, 0x20), BMask);
    buttons := SetIfPressed(buttons, And(x3, 0x40), XMask);
    buttons := SetIfPressed(buttons, And(x3, 0x80), YMask);

    LowByteTests(x2);
    HighByteTests(x3);
  }

  /** `(int16_t)(lo | (hi << 8))` reads the little-endian int16 stored in (lo, hi). */
  lemma ReadInt16(lo: byte, hi: byte)
    ensures ToInt16(Or(lo, hi as nat * 0x100)) == Int16Le(lo, hi)
  {
    Pow2Table();
    OrDisjoint(lo, hi, 8);
  }

  /** `ProcessXboxInput`: with no data, no report or fewer than 14 bytes it returns without
      touching the report; otherwise it clears the report and overwrites every field with
      the translation of the packet. `length` is the caller's count of valid bytes. */
  method ProcessXboxInput(xboxData: array?<byte>, length: nat, report: XboxHIDReport?)
    requires xboxData != null ==> length <= xboxData.Length
    modifies report
    ensures xboxData == null || report == null || length < MinPacketLength ==>
      report == null || report.Value() == old(report.Value())
    ensures xboxData != null && report != null && length >= MinPacketLength ==>
      report.Value() == Translate(xboxData[..length])
  {
    if xboxData == null || report == null || length < MinPacketLength {
      return;
    }

    // The packet as the processor reads it through its const pointer.
    var d := xboxData[..length];

    // memset(report, 0, sizeof(XboxHIDReport))
    report.buttons, report.leftX, report.leftY, report.rightX, report.rightY := 0, 0, 0, 0, 0;
    report.leftTrigger, report.rightTrigger := 0, 0;

    var buttons := DecodeButtons(d[2], d[3]);
    report.buttons := buttons;

    report.leftTrigger := d[4];
    report.rightTrigger := d[5];

    ReadInt16(d[6], d[7]);
    ReadInt16(d[8], d[9]);
    ReadInt16(d[10], d[11]);
    ReadInt16(d[12], d[13]);
    var lx: int16 := ToInt16(Or(d[6], d[7] as nat * 0x100));
    var ly: int16 := ToInt16(Or(d[8], d[9] as nat * 0x100));
    var rx: int16 := ToInt16(Or(d[10], d[11] as nat * 0x100));
    var ry: int16 := ToInt16(Or(d[12], d[13] as nat * 0x100));

    report.leftX := ConvertAxis(lx);
    report.leftY := ConvertAxis(ly);
    report.rightX := ConvertAxis(rx);
    report.rightY := ConvertAxis(ry);
  }
}
