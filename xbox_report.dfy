/** The HID input report of the input processor and its button bits: the packed
    `XboxHIDReport` structure and the `XboxButtons` constants.
 */
module XboxReport {
  import opened Bits

  /** The fifteen buttons the report carries. */
  datatype Button =
    | DpadUp | DpadDown | DpadLeft | DpadRight
    | Start | Back | LeftStick | RightStick
    | LeftBumper | RightBumper | Guide
    | A | B | X | Y

  /** Every button, in the order of the constants. */
  const AllButtons: seq<Button> :=
    [DpadUp, DpadDown, DpadLeft, DpadRight, Start, Back, LeftStick, RightStick,
     LeftBumper, RightBumper, Guide, A, B, X, Y]

  /** The `XboxButtons` constants. */
  const DpadUpMask: uint16 := 0x0001
  const DpadDownMask: uint16 := 0x0002
  const DpadLeftMask: uint16 := 0x0004
  const DpadRightMask: uint16 := 0x0008
  const StartMask: uint16 := 0x0010
  const BackMask: uint16 := 0x0020
  const LeftStickMask: uint16 := 0x0040
  const RightStickMask: uint16 := 0x0080
  const LeftBumperMask: uint16 := 0x0100
  const RightBumperMask: uint16 := 0x0200
  const GuideMask: uint16 := 0x0400
  const AMask: uint16 := 0x1000
  const BMask: uint16 := 0x2000
  const XMask: uint16 := 0x4000
  const YMask: uint16 := 0x8000

  /** The `XboxButtons` constant of each button: its bit in the report's button word,
      2 to the power of the button's position. */
  function Mask(b: Button): (m: uint16)
    ensures m == Pow2(Position(b))
  {
    Pow2Table();
    match b
    case DpadUp => DpadUpMask
    case DpadDown => DpadDownMask
    case DpadLeft => DpadLeftMask
    case DpadRight => DpadRightMask
    case Start => StartMask
    case Back => BackMask
    case LeftStick => LeftStickMask
    case RightStick => RightStickMask
    case LeftBumper => LeftBumperMask
    case RightBumper => RightBumperMask
    case Guide => GuideMask
    case A => AMask
    case B => BMask
    case X => XMask
    case Y => YMask
  }

  /** The bit position of each button: bits 0-7 the D-pad, Start, Back and the stick
      clicks; bits 8-10 the bumpers and Guide; bits 12-15 A, B, X and Y. */
  function Position(b: Button): (k: nat)
    ensures k < 16 && k != 11
  {
    match b
    case DpadUp => 0
    case DpadDown => 1
    case DpadLeft => 2
    case DpadRight => 3
    case Start => 4
    case Back => 5
    case LeftStick => 6
    case RightStick => 7
    case LeftBumper => 8
    case RightBumper => 9
    case Guide => 10
    case A => 12
    case B => 13
    case X => 14
    case Y => 15
  }

  /** The union of a sequence of button constants, as `|` would compute it. */
  function Union(bs: seq<Button>): nat
  {
    if bs == [] then 0 else Or(Mask(bs[0]), Union(bs[1..]))
  }

  /** The button at each position, the inverse of Position. */
  function ButtonAt(k: nat): Button
    requires k < 16 && k != 11
  {
    if k < 11 then AllButtons[k] else AllButtons[k - 1]
  }

  /** The values of the `XboxButtons` constants. */
  predicate IsButtonMask(m: nat)
  {
    m == DpadUpMask || m == DpadDownMask || m == DpadLeftMask
    || m == DpadRightMask || m == StartMask || m == BackMask
    || m == LeftStickMask || m == RightStickMask || m == LeftBumperMask
    || m == RightBumperMask || m == GuideMask || m == AMask
    || m == BMask || m == XMask || m == YMask
  }

  /** The button whose constant m is. */
  function ButtonOf(m: nat): (b: Button)
    requires IsButtonMask(m)
    ensures Mask(b) == m
  {
    if m == DpadUpMask then DpadUp
    else if m == DpadDownMask then DpadDown
    else if m == DpadLeftMask then DpadLeft
    else if m == DpadRightMask then DpadRight
    else if m == StartMask then Start
    else if m == BackMask then Back
    else if m == LeftStickMask then LeftStick
    else if m == RightStickMask then RightStick
    else if m == LeftBumperMask then LeftBumper
    else if m == RightBumperMask then RightBumper
    else if m == GuideMask then Guide
    else if m == AMask then A
    else if m == BMask then B
    else if m == XMask then X
    else Y
  }

  lemma PositionInjective(b: Button, c: Button)
    ensures ButtonAt(Position(b)) == b
    ensures Position(b) == Position(c) ==> b == c
  {
    assert ButtonAt(Position(c)) == c;
  }

  /** Every constant is a single bit, the one at the button's position. */
  lemma MaskIsSingleBit(b: Button)
    ensures Mask(b) == Pow2(Position(b))
    ensures forall k :: BitSet(Mask(b), k) <==> k == Position(b)
  {
    Pow2Table();
    forall k
      ensures BitSet(Mask(b), k) <==> k == Position(b)
    {
      Pow2Bits(Position(b), k);
    }
  }

  /** Distinct buttons have distinct constants that share no bit. */
  lemma MasksDisjoint(b: Button, c: Button)
    requires b != c
    ensures Position(b) != Position(c)
    ensures Mask(b) != Mask(c) && And(Mask(b), Mask(c)) == 0
  {
    PositionInjective(b, c);
    MaskIsSingleBit(b);
    MaskIsSingleBit(c);
    AndDistinctPowers(Position(b), Position(c));
  }

  /** The bits of a union of constants are the positions of its buttons. */
  lemma {:induction false} UnionBits(bs: seq<Button>, k: nat)
    ensures BitSet(Union(bs), k) <==> exists i :: 0 <= i < |bs| && Position(bs[i]) == k
  {
    if bs == [] {
      ZeroHasNoBits(k);
    } else {
      OrBits(Mask(bs[0]), Union(bs[1..]), k);
      MaskIsSingleBit(bs[0]);
      UnionBits(bs[1..], k);
      if BitSet(Union(bs[1..]), k) {
        var i :| 0 <= i < |bs[1..]| && Position(bs[1..][i]) == k;
        assert Position(bs[i + 1]) == k;
      }
      if exists i :: 0 <= i < |bs| && Position(bs[i]) == k {
        var i :| 0 <= i < |bs| && Position(bs[i]) == k;
        if i > 0 {
          assert Position(bs[1..][i - 1]) == k;
        }
      }
    }
  }

  lemma {:induction false} UnionBound(bs: seq<Button>)
    ensures Union(bs) < 0x1_0000
  {
    forall k | 16 <= k
      ensures !BitSet(Union(bs), k)
    {
      UnionBits(bs, k);
    }
    HasNoBitsAbove(Union(bs), 16);
    Pow2Table();
  }

  /** All constants together cover 0xF7FF: every bit of the word except bit 11 (0x0800)
      belongs to exactly one button. */
  lemma AllButtonsUnion()
    ensures Union(AllButtons) == 0xF7FF
  {
    forall b: Button
      ensures b in AllButtons
    {
      assert AllButtons[Position(b) - (if Position(b) < 11 then 0 else 1)] == b;
    }
    UnionOfEveryButton(AllButtons);
  }

  /** Any list naming every button ORs up to 0xF7FF, in whatever order and with whatever
      repetitions. */
  lemma UnionOfEveryButton(bs: seq<Button>)
    requires forall b: Button :: b in bs
    ensures Union(bs) == 0xF7FF
  {
    forall k | 0 <= k < 16
      ensures BitSet(Union(bs), k) <==> BitSet(0xF7FF, k)
    {
      UnionBits(bs, k);
      BitsOfF7FF(k);
      if k != 11 {
        var b := ButtonAt(k);
        PositionOfButtonAt(k);
        assert b in bs;
        var i :| 0 <= i < |bs| && bs[i] == b;
        assert Position(bs[i]) == k;
      }
    }
    UnionBound(bs);
    Pow2Table();
    BitsDetermine(Union(bs), 0xF7FF, 16);
  }

  lemma PositionOfButtonAt(k: nat)
    requires k < 16 && k != 11
    ensures Position(ButtonAt(k)) == k
  {
  }

  lemma BitsOfF7FF(k: nat)
    requires k < 16
    ensures BitSet(0xF7FF, k) <==> k != 11
  {
    Pow2Table();
    SplitBits(0x7FF, 0xF, 12, k);
    LowOnesBits(11, k);
    if k >= 12 {
      LowOnesBits(4, k - 12);
    }
  }

  /** The packed `XboxHIDReport`: 8 bytes, no padding. */
  datatype Report = Report(
    buttons: uint16,
    leftX: byte,
    leftY: byte,
    rightX: byte,
    rightY: byte,
    leftTrigger: byte,
    rightTrigger: byte)

  const ReportSize: nat := 8

  /** The memory image of the packed structure on a little-endian host: the button word
      at offsets 0-1, then leftX, leftY, rightX, rightY, leftTrigger, rightTrigger. */
  function Pack(r: Report): (b: seq<byte>)
    ensures |b| == ReportSize && b[0] as int + 0x100 * b[1] as int == r.buttons
  {
    Le16(r.buttons) + [r.leftX, r.leftY, r.rightX, r.rightY, r.leftTrigger, r.rightTrigger]
  }

  /** The report whose memory image is b. */
  function Unpack(b: seq<byte>): (r: Report)
    requires |b| == ReportSize
    ensures r.buttons == b[0] as int + 0x100 * b[1] as int
    ensures [r.leftX, r.leftY, r.rightX, r.rightY, r.leftTrigger, r.rightTrigger] == b[2..]
  {
    Report(FromLe16(b[0..2]), b[2], b[3], b[4], b[5], b[6], b[7])
  }

  lemma PackLayout(r: Report)
    ensures |Pack(r)| == ReportSize
    ensures Pack(r)[0] as int + 0x100 * Pack(r)[1] as int == r.buttons
    ensures Pack(r)[2] == r.leftX && Pack(r)[3] == r.leftY
    ensures Pack(r)[4] == r.rightX && Pack(r)[5] == r.rightY
    ensures Pack(r)[6] == r.leftTrigger && Pack(r)[7] == r.rightTrigger
  {
  }

  lemma UnpackPack(r: Report)
    ensures |Pack(r)| == ReportSize && Unpack(Pack(r)) == r
  {
    Le16RoundTrip(r.buttons);
    assert Pack(r)[0..2] == Le16(r.buttons);
  }

  lemma PackUnpack(b: seq<byte>)
    requires |b| == ReportSize
    ensures Pack(Unpack(b)) == b
  {
    FromLe16RoundTrip(b[0..2]);
  }

  /** The structure in memory, as `ProcessXboxInput` writes it through its pointer. */
  class XboxHIDReport {
    var buttons: uint16
    var leftX: byte
    var leftY: byte
    var rightX: byte
    var rightY: byte
    var leftTrigger: byte
    var rightTrigger: byte

    constructor (r: Report)
      ensures Value() == r
    {
      buttons, leftX, leftY, rightX, rightY := r.buttons, r.leftX, r.leftY, r.rightX, r.rightY;
      leftTrigger, rightTrigger := r.leftTrigger, r.rightTrigger;
    }

    /** The structure's current contents. */
    function Value(): Report
      reads this
    {
      Report(buttons, leftX, leftY, rightX, rightY, leftTrigger, rightTrigger)
    }
  }
}
