/** The HID device of the second driver variant: its report descriptor `gXboxHIDReport` and
    `UpdateButtons`, which copies a 16-bit button mask into the 2-byte report buffer and
    hands it to the HID stack.
 */
module XboxController {
  import opened Bits
  import opened Wrappers
  import opened IoReturn
  import opened HidDescriptor

  // The report descriptor, one short item per line: prefix byte, then data.
  const UsagePageGenericDesktop: seq<byte> := [0x05, 0x01]
  const UsageGamePad: seq<byte> := [0x09, 0x05]
  const CollectionApplication: seq<byte> := [0xA1, 0x01]
  const UsagePageButton: seq<byte> := [0x05, 0x09]
  const UsageMinimum1: seq<byte> := [0x19, 0x01]
  const UsageMaximum16: seq<byte> := [0x29, 0x10]
  const LogicalMinimum0: seq<byte> := [0x15, 0x00]
  const LogicalMaximum1: seq<byte> := [0x25, 0x01]
  const ReportCount16: seq<byte> := [0x95, 0x10]
  const ReportSize1: seq<byte> := [0x75, 0x01]
  const InputDataVariableAbsolute: seq<byte> := [0x81, 0x02]
  const EndCollection: seq<byte> := [0xC0]

  /** `gXboxHIDReport`: the 23 bytes above, in order. */
  const GXboxHIDReport: seq<byte> :=
    UsagePageGenericDesktop + UsageGamePad + CollectionApplication + UsagePageButton
    + UsageMinimum1 + UsageMaximum16 + LogicalMinimum0 + LogicalMaximum1
    + ReportCount16 + ReportSize1 + InputDataVariableAbsolute + EndCollection

  /** The items of GXboxHIDReport, in order. */
  const GXboxHIDReportItems: seq<Item> :=
      [Item(GlobalItem, UsagePageTag, [0x01])]       // Usage Page (Generic Desktop)
    + [Item(LocalItem, UsageTag, [0x05])]            // Usage (Game Pad)
    + [Item(MainItem, CollectionTag, [0x01])]        // Collection (Application)
    + [Item(GlobalItem, UsagePageTag, [0x09])]       // Usage Page (Button)
    + [Item(LocalItem, UsageMinimumTag, [0x01])]     // Usage Minimum (1)
    + [Item(LocalItem, UsageMaximumTag, [0x10])]     // Usage Maximum (16)
    + [Item(GlobalItem, LogicalMinimumTag, [0x00])]  // Logical Minimum (0)
    + [Item(GlobalItem, LogicalMaximumTag, [0x01])]  // Logical Maximum (1)
    + [Item(GlobalItem, ReportCountTag, [0x10])]     // Report Count (16)
    + [Item(GlobalItem, ReportSizeTag, [0x01])]      // Report Size (1)
    + [Item(MainItem, InputTag, [0x02])]             // Input (Data, Variable, Absolute)
    + [Item(MainItem, EndCollectionTag, [])]         // End Collection

  /** The global state in force at GXboxHIDReport's Input item. */
  const ButtonGlobals := Globals(Some(0x09), Some(0), Some(1), Some(1), Some(16))

  /** The one Input field GXboxHIDReport declares: buttons 1..16 of the Button page, sixteen
      one-bit fields with logical range 0..1. */
  const ButtonField := InputField(0x02, ButtonGlobals, Locals([], Some(1), Some(16)))

  /** `sizeof(uint16_t)`: the size of the report buffer and of every report. */
  const ReportLength: nat := 2

  /** Each line of GXboxHIDReport is one short item. */
  lemma GXboxHIDReportLines()
    ensures ParseItems(UsagePageGenericDesktop) == Some([Item(GlobalItem, UsagePageTag, [0x01])])
    ensures ParseItems(UsageGamePad) == Some([Item(LocalItem, UsageTag, [0x05])])
    ensures ParseItems(CollectionApplication) == Some([Item(MainItem, CollectionTag, [0x01])])
    ensures ParseItems(UsagePageButton) == Some([Item(GlobalItem, UsagePageTag, [0x09])])
    ensures ParseItems(UsageMinimum1) == Some([Item(LocalItem, UsageMinimumTag, [0x01])])
    ensures ParseItems(UsageMaximum16) == Some([Item(LocalItem, UsageMaximumTag, [0x10])])
    ensures ParseItems(LogicalMinimum0) == Some([Item(GlobalItem, LogicalMinimumTag, [0x00])])
    ensures ParseItems(LogicalMaximum1) == Some([Item(GlobalItem, LogicalMaximumTag, [0x01])])
    ensures ParseItems(ReportCount16) == Some([Item(GlobalItem, ReportCountTag, [0x10])])
    ensures ParseItems(ReportSize1) == Some([Item(GlobalItem, ReportSizeTag, [0x01])])
    ensures ParseItems(InputDataVariableAbsolute) == Some([Item(MainItem, InputTag, [0x02])])
    ensures ParseItems(EndCollection) == Some([Item(MainItem, EndCollectionTag, [])])
  {
    ParseOne(UsagePageGenericDesktop, Item(GlobalItem, UsagePageTag, [0x01]));
    ParseOne(UsageGamePad, Item(LocalItem, UsageTag, [0x05]));
    ParseOne(CollectionApplication, Item(MainItem, CollectionTag, [0x01]));
    ParseOne(UsagePageButton, Item(GlobalItem, UsagePageTag, [0x09]));
    ParseOne(UsageMinimum1, Item(LocalItem, UsageMinimumTag, [0x01]));
    ParseOne(UsageMaximum16, Item(LocalItem, UsageMaximumTag, [0x10]));
    ParseOne(LogicalMinimum0, Item(GlobalItem, LogicalMinimumTag, [0x00]));
    ParseOne(LogicalMaximum1, Item(GlobalItem, LogicalMaximumTag, [0x01]));
    ParseOne(ReportCount16, Item(GlobalItem, ReportCountTag, [0x10]));
    ParseOne(ReportSize1, Item(GlobalItem, ReportSizeTag, [0x01]));
    ParseOne(InputDataVariableAbsolute, Item(MainItem, InputTag, [0x02]));
    ParseOne(EndCollection, Item(MainItem, EndCollectionTag, []));
  }

  /** gXboxHIDReport is well-formed: it splits into exactly the short items above, and those
      items encode back to gXboxHIDReport. */
  lemma GXboxHIDReportParses()
    ensures ParseItems(GXboxHIDReport) == Some(GXboxHIDReportItems)
    ensures forall i :: 0 <= i < |GXboxHIDReportItems| ==> EncodableItem(GXboxHIDReportItems[i])
    ensures EncodeItems(GXboxHIDReportItems) == GXboxHIDReport
  {
    GXboxHIDReportLines();
    var d := UsagePageGenericDesktop;
    ParseConcat(d, UsageGamePad);
    d := d + UsageGamePad;
    ParseConcat(d, CollectionApplication);
    d := d + CollectionApplication;
    ParseConcat(d, UsagePageButton);
    d := d + UsagePageButton;
    ParseConcat(d, UsageMinimum1);
    d := d + UsageMinimum1;
    ParseConcat(d, UsageMaximum16);
    d := d + UsageMaximum16;
    ParseConcat(d, LogicalMinimum0);
    d := d + LogicalMinimum0;
    ParseConcat(d, LogicalMaximum1);
    d := d + LogicalMaximum1;
    ParseConcat(d, ReportCount16);
    d := d + ReportCount16;
    ParseConcat(d, ReportSize1);
    d := d + ReportSize1;
    ParseConcat(d, InputDataVariableAbsolute);
    d := d + InputDataVariableAbsolute;
    ParseConcat(d, EndCollection);
    ParseEncodes(GXboxHIDReport);
  }

  /** Every item has one data byte except the final End Collection, which has none; the
      descriptor opens with Usage Page (Generic Desktop) and Usage (Game Pad). */
  lemma GXboxHIDReportDataSizes()
    ensures |GXboxHIDReportItems| == 12
    ensures forall i :: 0 <= i < |GXboxHIDReportItems| - 1 ==> |GXboxHIDReportItems[i].data| == 1
    ensures GXboxHIDReportItems[|GXboxHIDReportItems| - 1] == Item(MainItem, EndCollectionTag, [])
    ensures GXboxHIDReportItems[0] == Item(GlobalItem, UsagePageTag, [0x01])
    ensures GXboxHIDReportItems[1] == Item(LocalItem, UsageTag, [0x05])
  {
  }

  /** Reading gXboxHIDReport's items leaves one field, the Button page with logical range
      0..1, Report Size 1 and Report Count 16 in force, no locals pending, and every
      Collection closed. */
  lemma GXboxHIDReportRead()
    ensures Read(GXboxHIDReportItems) == ParserState([ButtonField], ButtonGlobals, NoLocals, 0, true)
  {
    var items: seq<Item> := [];
    var it := Item(GlobalItem, UsagePageTag, [0x01]);
    ReadSnoc(items, it);
    assert [] + [it] == [it];
    items := [it];
    assert Read(items).globals == Globals(Some(0x01), None, None, None, None);
    it := Item(LocalItem, UsageTag, [0x05]);
    ReadSnoc(items, it);
    items := items + [it];
    assert Read(items).locals == Locals([0x05], None, None);
    it := Item(MainItem, CollectionTag, [0x01]);
    ReadSnoc(items, it);
    items := items + [it];
    assert Read(items) == ParserState([], Globals(Some(0x01), None, None, None, None), NoLocals, 1, true);
    it := Item(GlobalItem, UsagePageTag, [0x09]);
    ReadSnoc(items, it);
    items := items + [it];
    assert Read(items) == ParserState([], Globals(Some(0x09), None, None, None, None), NoLocals, 1, true);
    it := Item(LocalItem, UsageMinimumTag, [0x01]);
    ReadSnoc(items, it);
    items := items + [it];
    it := Item(LocalItem, UsageMaximumTag, [0x10]);
    ReadSnoc(items, it);
    items := items + [it];
    assert Read(items) == ParserState([], Globals(Some(0x09), None, None, None, None),
                                      Locals([], Some(1), Some(16)), 1, true);
    it := Item(GlobalItem, LogicalMinimumTag, [0x00]);
    ReadSnoc(items, it);
    items := items + [it];
    assert Read(items).globals == Globals(Some(0x09), Some(0), None, None, None);
    it := Item(GlobalItem, LogicalMaximumTag, [0x01]);
    ReadSnoc(items, it);
    items := items + [it];
    assert Read(items) == ParserState([], Globals(Some(0x09), Some(0), Some(1), None, None),
                                      Locals([], Some(1), Some(16)), 1, true);
    it := Item(GlobalItem, ReportCountTag, [0x10]);
    ReadSnoc(items, it);
    items := items + [it];
    assert Read(items).globals == Globals(Some(0x09), Some(0), Some(1), None, Some(16));
    it := Item(GlobalItem, ReportSizeTag, [0x01]);
    ReadSnoc(items, it);
    items := items + [it];
    assert Read(items) == ParserState([], ButtonGlobals, Locals([], Some(1), Some(16)), 1, true);
    it := Item(MainItem, InputTag, [0x02]);
    ReadSnoc(items, it);
    items := items + [it];
    assert Read(items) == ParserState([ButtonField], ButtonGlobals, NoLocals, 1, true);
    it := Item(MainItem, EndCollectionTag, []);
    ReadSnoc(items, it);
    items := items + [it];
  }

  /** Its one Collection is closed by its End Collection. */
  lemma GXboxHIDReportBalanced()
    ensures Balanced(GXboxHIDReportItems)
  {
    GXboxHIDReportRead();
  }

  /** The input report gXboxHIDReport declares: one Data, Variable, Absolute field of 16
      one-bit buttons (Usage Minimum 1 to Usage Maximum 16 on the Button page) with logical
      range 0..1, 16 bits in all, which is the 2-byte buffer `UpdateButtons` fills. */
  lemma GXboxHIDReportDeclaresButtons()
    ensures InputFields(GXboxHIDReportItems) == [ButtonField]
    ensures IsDataVariableAbsolute(ButtonField) && UsageCount(ButtonField) == 16
    ensures ButtonField.globals.logicalMinimum == Some(0)
    ensures ButtonField.globals.logicalMaximum == Some(1)
    ensures ReportBits(InputFields(GXboxHIDReportItems)) == 8 * ReportLength
  {
    GXboxHIDReportRead();
    FlagsOfDataVariableAbsolute();
    assert [ButtonField][1..] == [];
  }

  /** `reportBuffer` together with the reports handed to `handleReport`. */
  class ButtonReporter {
    /** The 2-byte report buffer; null when `init` could not create it. */
    const reportBuffer: array?<byte>
    /** Every input report handed to the HID stack, oldest first. */
    var delivered: seq<seq<byte>>

    predicate Valid()
      reads this
    {
      reportBuffer != null ==> reportBuffer.Length == ReportLength
    }

    /** The buffer `init` creates with `sizeof(uint16_t)` bytes; a failed creation, with
        status `createStatus`, leaves it null. */
    constructor (createStatus: int)
      ensures Valid() && delivered == []
      ensures createStatus == Success <==> reportBuffer != null
      ensures reportBuffer != null ==> fresh(reportBuffer)
    {
      if createStatus == Success {
        reportBuffer := new byte[ReportLength];
      } else {
        reportBuffer := null;
      }
      delivered := [];
    }

    /** Writes the mask into the buffer as `memcpy` does on a little-endian host and
        delivers the buffer's 2 bytes as one input report. Without a buffer it returns
        `kIOReturnError`; if mapping the buffer fails with `mapStatus` it returns that
        status; in both cases nothing is written or delivered. */
    method UpdateButtons(mask: uint16, mapStatus: int) returns (ret: int)
      requires Valid()
      modifies this, reportBuffer
      ensures Valid()
      ensures reportBuffer == null ==> ret == GeneralError && delivered == old(delivered)
      ensures reportBuffer != null && mapStatus != Success ==>
        ret == mapStatus && delivered == old(delivered) && reportBuffer[..] == old(reportBuffer[..])
      ensures reportBuffer != null && mapStatus == Success ==>
        ret == Success && reportBuffer[..] == Le16(mask)
        && delivered == old(delivered) + [Le16(mask)]
    {
      if reportBuffer == null {
        return GeneralError;
      }

      if mapStatus != Success {
        return mapStatus;
      }

      reportBuffer[0] := mask % 0x100;
      reportBuffer[1] := mask / 0x100;

      delivered := delivered + [reportBuffer[..]];
      ret := Success;
    }
  }

  /** Every mask goes out unfiltered: its report reads back as the mask, and distinct
      masks give distinct reports. */
  lemma ReportIsMask(mask: uint16, other: uint16)
    ensures |Le16(mask)| == ReportLength && FromLe16(Le16(mask)) == mask
    ensures Le16(mask) == Le16(other) ==> mask == other
  {
    Le16RoundTrip(mask);
    Le16RoundTrip(other);
  }
}
