/** The HID side of the read-completion driver: its report descriptor `HIDDesc` and
    `UpdateHIDReport`, which packs the A and B buttons of a controller state into a 2-byte
    input report and hands it to the HID stack.
 */
module XboxHIDInterface {
  import opened Bits
  import opened Wrappers
  import opened HidDescriptor

  /** The controller state the completion handler fills in. Its definition is not part of
      this model; these are the four members the driver sets and reads. */
  datatype ControllerState = ControllerState(
    buttonA: bool,
    buttonB: bool,
    leftStickX: int16,
    leftStickY: int16)

  // The report descriptor, one short item per line: prefix byte, then data.
  const UsagePageGenericDesktop: seq<byte> := [0x05, 0x01]
  const UsageGamePad: seq<byte> := [0x09, 0x05]
  const CollectionApplication: seq<byte> := [0xA1, 0x01]
  const UsagePageButton: seq<byte> := [0x05, 0x09]
  const UsageMinimum1: seq<byte> := [0x19, 0x01]
  const UsageMaximum16: seq<byte> := [0x29, 0x10]
  const ReportCount16: seq<byte> := [0x95, 0x10]
  const ReportSize1: seq<byte> := [0x75, 0x01]
  const InputDataVariableAbsolute: seq<byte> := [0x81, 0x02]
  const EndCollection: seq<byte> := [0xC0]

  /** `HIDDesc`: the 19 bytes above, in order. */
  const HIDDesc: seq<byte> :=
    UsagePageGenericDesktop + UsageGamePad + CollectionApplication + UsagePageButton
    + UsageMinimum1 + UsageMaximum16 + ReportCount16 + ReportSize1
    + InputDataVariableAbsolute + EndCollection

  /** The items of HIDDesc, in order. */
  const HIDDescItems: seq<Item> :=
      [Item(GlobalItem, UsagePageTag, [0x01])]      // Usage Page (Generic Desktop)
    + [Item(LocalItem, UsageTag, [0x05])]           // Usage (Game Pad)
    + [Item(MainItem, CollectionTag, [0x01])]       // Collection (Application)
    + [Item(GlobalItem, UsagePageTag, [0x09])]      // Usage Page (Button)
    + [Item(LocalItem, UsageMinimumTag, [0x01])]    // Usage Minimum (1)
    + [Item(LocalItem, UsageMaximumTag, [0x10])]    // Usage Maximum (16)
    + [Item(GlobalItem, ReportCountTag, [0x10])]    // Report Count (16)
    + [Item(GlobalItem, ReportSizeTag, [0x01])]     // Report Size (1)
    + [Item(MainItem, InputTag, [0x02])]            // Input (Data, Variable, Absolute)
    + [Item(MainItem, EndCollectionTag, [])]        // End Collection

  /** The global state in force at HIDDesc's Input item. */
  const ButtonGlobals := Globals(Some(0x09), None, None, Some(1), Some(16))

  /** The one Input field HIDDesc declares: buttons 1..16 of the Button page, sixteen
      one-bit fields, with no logical range declared. */
  const ButtonField := InputField(0x02, ButtonGlobals, Locals([], Some(1), Some(16)))

  /** Bytes the report carries: `sizeof(buttons)`. */
  const ReportLength: nat := 2

  /** Capacity of `hidBuffer`, created with 32 bytes. */
  const HidBufferCapacity: nat := 32

  /** Each line of HIDDesc is one short item. */
  lemma HIDDescLines()
    ensures ParseItems(UsagePageGenericDesktop) == Some([Item(GlobalItem, UsagePageTag, [0x01])])
    ensures ParseItems(UsageGamePad) == Some([Item(LocalItem, UsageTag, [0x05])])
    ensures ParseItems(CollectionApplication) == Some([Item(MainItem, CollectionTag, [0x01])])
    ensures ParseItems(UsagePageButton) == Some([Item(GlobalItem, UsagePageTag, [0x09])])
    ensures ParseItems(UsageMinimum1) == Some([Item(LocalItem, UsageMinimumTag, [0x01])])
    ensures ParseItems(UsageMaximum16) == Some([Item(LocalItem, UsageMaximumTag, [0x10])])
    ensures ParseItems(ReportCount16) == Some([Item(GlobalItem, ReportCountTag, [0x10])])
    ensures ParseItems(ReportSize1) == Some([Item(GlobalItem, ReportSizeTag, [0x01])])
    ensures ParseItems(InputDataVariableAbsolute) == Some([Item(MainItem, InputTag, [0x02])])
    ensures ParseItems(EndCollection) == Some([Item(MainItem, EndCollectionTag, [])])
  {
    ParseOne(UsagePageGenericDesktop, Item(GlobalItem, UsagePageTag, [0x01]));
    ParseOne(UsageGamePad, Item(LocalItem, UsageTag, [0x05]));
    ParseOne(CollectionApplication, Item(MainItem, CollectionTag, [0x01]));
    ParseOne(UsagePageButton, Item(GlobalItem, UsagePageTag, [0x09]));
    ParseOne(UsageMinimum1, Item(LocalItem, UsageMinimumTag, [0x01]));
    ParseOne(UsageMaximum16, Item(LocalItem, UsageMaximumTag, [0x10]));
    ParseOne(ReportCount16, Item(GlobalItem, ReportCountTag, [0x10]));
    ParseOne(ReportSize1, Item(GlobalItem, ReportSizeTag, [0x01]));
    ParseOne(InputDataVariableAbsolute, Item(MainItem, InputTag, [0x02]));
    ParseOne(EndCollection, Item(MainItem, EndCollectionTag, []));
  }

  /** HIDDesc is well-formed: it splits into exactly the short items above, and those
      items encode back to HIDDesc. */
  lemma HIDDescParses()
    ensures ParseItems(HIDDesc) == Some(HIDDescItems)
    ensures forall i :: 0 <= i < |HIDDescItems| ==> EncodableItem(HIDDescItems[i])
    ensures EncodeItems(HIDDescItems) == HIDDesc
  {
    HIDDescLines();
    var d := UsagePageGenericDesktop;
    ParseConcat(d, UsageGamePad);
    d := d + UsageGamePad;
    ParseConcat(d, CollectionApplication);
    d := d + CollectionApplication;
    ParseConcat(d, UsagePageButton);
    d := d + UsagePageButton;
    ParseConcat(d, UsageMinimum1);
    d := d + UsageMinimum1;
    ParseConcat(d, UsageMaximum16);
    d := d + UsageMaximum16;
    ParseConcat(d, ReportCount16);
    d := d + ReportCount16;
    ParseConcat(d, ReportSize1);
    d := d + ReportSize1;
    ParseConcat(d, InputDataVariableAbsolute);
    d := d + InputDataVariableAbsolute;
    ParseConcat(d, EndCollection);
    ParseEncodes(HIDDesc);
  }

  /** Every item has one data byte except the final End Collection, which has none. */
  lemma HIDDescDataSizes()
    ensures |HIDDescItems| == 10
    ensures forall i :: 0 <= i < |HIDDescItems| - 1 ==> |HIDDescItems[i].data| == 1
    ensures HIDDescItems[|HIDDescItems| - 1] == Item(MainItem, EndCollectionTag, [])
  {
  }

  /** Reading HIDDesc's items leaves one field, the Button page with Report Size 1 and
      Report Count 16 in force, no locals pending, and every Collection closed. */
  lemma HIDDescRead()
    ensures Read(HIDDescItems) == ParserState([ButtonField], ButtonGlobals, NoLocals, 0, true)
  {
    var items: seq<Item> := [];
    var it := Item(GlobalItem, UsagePageTag, [0x01]);
    ReadSnoc(items, it);
    assert [] + [it] == [it];
    items := [it];
    assert Read(items).globals == Globals(Some(0x01), None, None, None, None);
    it := Item(LocalItem, UsageTag, [0x05]);
    ReadSnoc(items, it);
    items := items + [it];
    assert Read(items).locals == Locals([0x05], None, None);
    it := Item(MainItem, CollectionTag, [0x01]);
    ReadSnoc(items, it);
    items := items + [it];
    assert Read(items) == ParserState([], Globals(Some(0x01), None, None, None, None), NoLocals, 1, true);
    it := Item(GlobalItem, UsagePageTag, [0x09]);
    ReadSnoc(items, it);
    items := items + [it];
    it := Item(LocalItem, UsageMinimumTag, [0x01]);
    ReadSnoc(items, it);
    items := items + [it];
    it := Item(LocalItem, UsageMaximumTag, [0x10]);
    ReadSnoc(items, it);
    items := items + [it];
    assert Read(items) == ParserState([], Globals(Some(0x09), None, None, None, None),
                                      Locals([], Some(1), Some(16)), 1, true);
    it := Item(GlobalItem, ReportCountTag, [0x10]);
    ReadSnoc(items, it);
    items := items + [it];
    it := Item(GlobalItem, ReportSizeTag, [0x01]);
    ReadSnoc(items, it);
    items := items + [it];
    assert Read(items) == ParserState([], ButtonGlobals, Locals([], Some(1), Some(16)), 1, true);
    it := Item(MainItem, InputTag, [0x02]);
    ReadSnoc(items, it);
    items := items + [it];
    assert Read(items) == ParserState([ButtonField], ButtonGlobals, NoLocals, 1, true);
    it := Item(MainItem, EndCollectionTag, []);
    ReadSnoc(items, it);
    items := items + [it];
  }

  /** Its one Collection is closed by its End Collection. */
  lemma HIDDescBalanced()
    ensures Balanced(HIDDescItems)
  {
    HIDDescRead();
  }

  /** The input report HIDDesc declares: one Data, Variable, Absolute field of 16 one-bit
      buttons (Usage Minimum 1 to Usage Maximum 16 on the Button page), 16 bits in all,
      which is the 2 bytes `UpdateHIDReport` sends. The descriptor declares no Logical
      Minimum or Maximum. */
  lemma HIDDescDeclaresButtons()
    ensures InputFields(HIDDescItems) == [ButtonField]
    ensures IsDataVariableAbsolute(ButtonField) && UsageCount(ButtonField) == 16
    ensures ButtonField.globals.logicalMinimum.None? && ButtonField.globals.logicalMaximum.None?
    ensures ReportBits(InputFields(HIDDescItems)) == 8 * ReportLength
  {
    HIDDescRead();
    FlagsOfDataVariableAbsolute();
    assert [ButtonField][1..] == [];
  }

  /** The mask `UpdateHIDReport` builds: A on bit 0 (`1 << 0`), B on bit 1 (`1 << 1`). */
  function ReportMask(s: ControllerState): (m: uint16)
    ensures m < 4 && (m % 2 == 1 <==> s.buttonA) && (m / 2 == 1 <==> s.buttonB)
  {
    (if s.buttonA then 1 else 0) + (if s.buttonB then 2 else 0)
  }

  /** Bit 0 of the mask is set exactly when A is pressed, bit 1 exactly when B is, and
      the other fourteen bits are always clear. */
  lemma ReportMaskBits(s: ControllerState, k: nat)
    ensures BitSet(ReportMask(s), k) <==> (k == 0 && s.buttonA) || (k == 1 && s.buttonB)
  {
    if k >= 2 {
      Pow2Table();
      NoBitsAbove(ReportMask(s), 2, k);
    } else if k == 1 {
      assert ReportMask(s) / 2 == (if s.buttonB then 1 else 0);
    }
  }

  /** In the report the mask is byte 0 (A in bit 0, B in bit 1) followed by a zero byte. */
  lemma ReportBytes(s: ControllerState)
    ensures Le16(ReportMask(s)) == [ReportMask(s), 0]
    ensures ReportMask(s) < 4
  {
  }

  /** `hidBuffer` together with the reports handed to `handleReport`. */
  class HidInterface {
    const hidBuffer: array<byte>
    /** The buffer's length as `SetLength` last set it. */
    var hidLength: nat
    /** Every input report handed to the HID stack, oldest first. */
    var delivered: seq<seq<byte>>

    predicate Valid()
      reads this
    {
      hidBuffer.Length == HidBufferCapacity && hidLength <= hidBuffer.Length
    }

    /** A fresh, empty 32-byte buffer with nothing delivered yet. */
    constructor ()
      ensures Valid() && fresh(hidBuffer)
      ensures hidLength == 0 && delivered == []
    {
      hidBuffer := new byte[HidBufferCapacity];
      hidLength := 0;
      delivered := [];
    }

    /** Packs A and B into the mask, sets the buffer's length to 2, writes the mask's bytes
        little-endian at offset 0 and delivers those 2 bytes as one input report. The rest
        of the buffer is untouched. */
    method UpdateHIDReport(s: ControllerState)
      requires Valid()
      modifies this, hidBuffer
      ensures Valid() && hidLength == ReportLength
      ensures hidBuffer[..ReportLength] == Le16(ReportMask(s))
      ensures hidBuffer[ReportLength..] == old(hidBuffer[ReportLength..])
      ensures delivered == old(delivered) + [Le16(ReportMask(s))]
    {
      var buttons: uint16 := 0;
      if s.buttonA {
        buttons := Or(buttons, 1);
      }
      if s.buttonB {
        Pow2Table();
        OrAbove(buttons, 1);
        buttons := Or(buttons, 2);
      }
      assert buttons == ReportMask(s);

      hidLength := ReportLength;
      hidBuffer[0] := buttons % 0x100;
      hidBuffer[1] := buttons / 0x100;

      delivered := delivered + [hidBuffer[..ReportLength]];
    }
  }
}
