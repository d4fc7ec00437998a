# Xbox 360 controller input to HID reports

A model of how this macOS DriverKit driver turns Xbox 360 USB input packets into HID input
reports. It has three parts, each modelled as its own source file does it:

- **The input processor** (`XboxInputProcessor.cpp` / `.h`). It decodes a packet of at
  least 14 bytes into the packed 8-byte `XboxHIDReport`:
  - bytes 2 and 3 become the 16-bit button word through the `XboxButtons` constants;
  - bytes 4 and 5 are the triggers;
  - the four little-endian int16 axes at offsets 6..13 become bytes through `ConvertAxis`.

  `ConvertAxis` is a function. `ProcessXboxInput` is a method that writes the report
  object field by field. It is proved equal to the specification function `Translate`,
  whose properties are lemmas.
- **The read-completion handler** (`XboxUSBDriver.cpp`). `UsbReader` is a class standing
  for the driver. It holds:
  - the 32-byte input buffer;
  - the HID side;
  - the number of reads outstanding on the interrupt-in pipe;
  - the log of `AsyncIO` requests.

  `HandleReadComplete` decodes the unpacked `Xbox360Packet` (A, B and the left stick),
  hands the state to `UpdateHIDReport` and resubmits through `StartReading`.
- **The two 2-byte button reports and their report descriptors.**
  - In `XboxHIDInterface.cpp`: `HIDDesc` and `UpdateHIDReport`.
  - In `XboxController.cpp`: `gXboxHIDReport` and `UpdateButtons`.

  Each descriptor is parsed into the short items of the USB Device Class Definition for
  HID 1.11:
  - section 6.2.2.2 for short items;
  - section 6.2.2.4 for Main items;
  - sections 6.2.2.7 and 6.2.2.8 for Global and Local items.

  The items are then interpreted into the Input fields they declare, which must match the
  2 bytes the writers deliver.

The modules:
- `Bits` holds C's `|`, `&` and `^` on naturals, bit lemmas, and the little-endian byte
  images of 16-bit values.
- `HidDescriptor` is the generic HID item parser and interpreter.
- `IoReturn` holds the two `IOReturn` codes.
- `Wrappers` holds `Option`.
- Then one module per source file: `XboxReport` (the header), `XboxInputProcessor`,
  `XboxHIDInterface`, `XboxUSBDriver` and `XboxController`.

Host calls are method parameters, because the model cannot compute their results:
- the status `AsyncIO` returns when a read is submitted (`StartReading` returns it and
  `HandleReadComplete` ignores it);
- the status of `CreateMapping`;
- the status of creating the report buffer.

`handleReport` is modelled as appending the delivered bytes to a `delivered` log.

The host is taken to be little-endian, as both Apple architectures are. This matters for
the `memcpy`/`WriteBytes` of a `uint16_t` and for the `int16_t` fields of
`Xbox360Packet`.

Facts about the code that the model keeps:
- The handler checks only the packet's size byte, never its header byte.
- There is no hat switch, and the Y inversion is commented out
  (XboxInputProcessor.cpp:71-72).
- A failed transfer status is returned without a new read.
- `XboxInputProcessor.TranslateExample`: the packet `00 14 10 10 80 40` followed by four
  axes of 0x8000 decodes as Start and A (byte 3, bit 4), triggers 0x80 and 0x40, and four
  stick bytes of 0, since 0x8000 is -32768.

## Model

| member | source | states |
|---|---|---|
| XboxReport.Mask | xboxcontrollerdriver/xboxcontrollerdriver/XboxInputProcessor.h:19-35 | each button's constant is 2 to the power of its position, a single bit |
| XboxReport.Position | xboxcontrollerdriver/xboxcontrollerdriver/XboxInputProcessor.h:20-34 | every button's bit is below 16 and not bit 11 |
| XboxReport.PositionInjective | xboxcontrollerdriver/xboxcontrollerdriver/XboxInputProcessor.h:20-34 | the bit order is one-to-one: ButtonAt inverts Position, and two buttons with the same bit are the same button |
| XboxReport.ButtonOf | xboxcontrollerdriver/xboxcontrollerdriver/XboxInputProcessor.h:19-35 | each constant value belongs to a button whose constant it is |
| XboxReport.MaskIsSingleBit | xboxcontrollerdriver/xboxcontrollerdriver/XboxInputProcessor.h:19-35 | each of the 15 constants is 2^position, and the only bit it has set is its own |
| XboxReport.MasksDisjoint | xboxcontrollerdriver/xboxcontrollerdriver/XboxInputProcessor.h:19-35 | distinct buttons have distinct constants with no common bit |
| XboxReport.UnionBits | xboxcontrollerdriver/xboxcontrollerdriver/XboxInputProcessor.h:19-35 | bit k of the OR of some constants is set iff one of those buttons sits at bit k |
| XboxReport.UnionBound | xboxcontrollerdriver/xboxcontrollerdriver/XboxInputProcessor.h:19-35 | any OR of constants fits in 16 bits |
| XboxReport.AllButtonsUnion | xboxcontrollerdriver/xboxcontrollerdriver/XboxInputProcessor.h:28-31 | all fifteen constants OR to 0xF7FF: bit 0x0800 is unassigned |
| XboxReport.UnionOfEveryButton | xboxcontrollerdriver/xboxcontrollerdriver/XboxInputProcessor.h:19-35 | any list naming every button ORs to 0xF7FF, whatever its order or repetitions |
| XboxReport.BitsOfF7FF | xboxcontrollerdriver/xboxcontrollerdriver/XboxInputProcessor.h:28-31 | of bits 0..15 of 0xF7FF, exactly bit 11 is clear |
| XboxReport.Pack | xboxcontrollerdriver/xboxcontrollerdriver/XboxInputProcessor.h:8-16 | the memory image is 8 bytes and bytes 0-1 read little-endian are the button word |
| XboxReport.Unpack | xboxcontrollerdriver/xboxcontrollerdriver/XboxInputProcessor.h:8-16 | the button word is bytes 0-1 read little-endian, and bytes 2-7 are leftX, leftY, rightX, rightY, leftTrigger, rightTrigger |
| XboxReport.PackLayout | xboxcontrollerdriver/xboxcontrollerdriver/XboxInputProcessor.h:8-16 | the packed report is 8 bytes: the button word little-endian at 0-1, then leftX, leftY, rightX, rightY, leftTrigger, rightTrigger |
| XboxReport.UnpackPack | xboxcontrollerdriver/xboxcontrollerdriver/XboxInputProcessor.h:8-16 | reading back the 8-byte image gives the report |
| XboxReport.PackUnpack | xboxcontrollerdriver/xboxcontrollerdriver/XboxInputProcessor.h:8-16 | every 8-byte image is the image of the report read from it |
| XboxReport.XboxHIDReport.constructor | xboxcontrollerdriver/xboxcontrollerdriver/XboxInputProcessor.h:8-16 | the structure in memory holds exactly the given report |
| XboxInputProcessor.ConvertAxis | xboxcontrollerdriver/xboxcontrollerdriver/XboxInputProcessor.cpp:5-13 | `(uint8_t)(temp >> 8)` truncates nothing: the result is exactly (value + 32768) div 256 |
| XboxInputProcessor.ConvertAxisEndpoints | xboxcontrollerdriver/xboxcontrollerdriver/XboxInputProcessor.cpp:6-12 | -32768 maps to 0, 0 to 128, 32767 to 255 |
| XboxInputProcessor.ConvertAxisMonotonic | xboxcontrollerdriver/xboxcontrollerdriver/XboxInputProcessor.h:50-56 | the remap never decreases (and its byte result lies in 0..255 by type) |
| XboxInputProcessor.AxisIsHighByteFlipped | xboxcontrollerdriver/xboxcontrollerdriver/XboxInputProcessor.cpp:66-77 | the converted int16 stored as (lo, hi) is hi XOR 0x80; the low byte never matters |
| XboxInputProcessor.FlipTopBit | xboxcontrollerdriver/xboxcontrollerdriver/XboxInputProcessor.cpp:5-13 | XOR 0x80 keeps the low seven bits and inverts the top bit |
| XboxInputProcessor.Translate | xboxcontrollerdriver/xboxcontrollerdriver/XboxInputProcessor.cpp:36-77 | the button word's low byte is packet byte 2 and its high byte is byte 3 AND 0xF7; the triggers are bytes 4 and 5 |
| XboxInputProcessor.ButtonWordBytes | xboxcontrollerdriver/xboxcontrollerdriver/XboxInputProcessor.cpp:38-57 | the button word's bytes are packet byte 2 and packet byte 3 AND 0xF7 |
| XboxInputProcessor.WireBit | xboxcontrollerdriver/xboxcontrollerdriver/XboxInputProcessor.cpp:38-55 | each button is read from a bit below 8, and never from bit 3 of byte 3 |
| XboxInputProcessor.ClearBit3 | xboxcontrollerdriver/xboxcontrollerdriver/XboxInputProcessor.cpp:48-55 | the bits of x AND 0xF7 are x's bits except bit 3 |
| XboxInputProcessor.ButtonFromPacket | xboxcontrollerdriver/xboxcontrollerdriver/XboxInputProcessor.cpp:38-55 | for every button, its report bit is set iff its wire bit in byte 2 or 3 is set |
| XboxInputProcessor.Bit11Clear | xboxcontrollerdriver/xboxcontrollerdriver/XboxInputProcessor.cpp:48-57 | report bit 11 is always clear, and the word is within 0xF7FF |
| XboxInputProcessor.SticksAreFlippedHighBytes | xboxcontrollerdriver/xboxcontrollerdriver/XboxInputProcessor.cpp:66-77 | each stick byte is the high byte at offset 7, 9, 11 or 13 XOR 0x80, so no axis is inverted |
| XboxInputProcessor.TranslateReadsOnlyPayload | xboxcontrollerdriver/xboxcontrollerdriver/XboxInputProcessor.cpp:23-34 | packets that agree on bytes 2..13 give the same report; bytes 0-1 and any after 13 never matter |
| XboxInputProcessor.TranslateExample | xboxcontrollerdriver/xboxcontrollerdriver/XboxInputProcessor.cpp:36-77 | the packet 00 14 10 10 80 40 followed by four axes of 0x8000 gives Start plus A, triggers 0x80 and 0x40, and four zero stick bytes |
| XboxInputProcessor.Contribution | xboxcontrollerdriver/xboxcontrollerdriver/XboxInputProcessor.cpp:39 | what one test adds is at most its constant |
| XboxInputProcessor.LowByteTests | xboxcontrollerdriver/xboxcontrollerdriver/XboxInputProcessor.cpp:38-46 | the eight byte-2 tests, each weighted by its constant, sum to byte 2 |
| XboxInputProcessor.HighByteTests | xboxcontrollerdriver/xboxcontrollerdriver/XboxInputProcessor.cpp:48-55 | the seven byte-3 tests, weighted by their constants, sum to 256 times (byte 3 AND 0xF7) |
| XboxInputProcessor.SingleBitTests | xboxcontrollerdriver/xboxcontrollerdriver/XboxInputProcessor.cpp:38-55 | `x & 2^k` is nonzero iff bit k of x is set, for k = 0..7 |
| XboxInputProcessor.SetIfPressed | xboxcontrollerdriver/xboxcontrollerdriver/XboxInputProcessor.cpp:39 | `if (test) buttons \|= constant` adds the constant exactly when the test holds, while every earlier bit lies below it |
| XboxInputProcessor.DecodeButtons | xboxcontrollerdriver/xboxcontrollerdriver/XboxInputProcessor.cpp:36-57 | the fifteen conditional ORs build byte 2 + 256 times (byte 3 AND 0xF7) |
| Bits.ToInt16 | xboxcontrollerdriver/xboxcontrollerdriver/XboxInputProcessor.cpp:66-69 | the `(int16_t)` cast keeps the value modulo 2^16 |
| Bits.Int16Le | xboxcontrollerdriver/xboxcontrollerdriver/XboxInputProcessor.cpp:66-69 | the int16 of (lo, hi) is lo + 256 hi modulo 2^16, and negative iff hi has its top bit set |
| XboxInputProcessor.ReadInt16 | xboxcontrollerdriver/xboxcontrollerdriver/XboxInputProcessor.cpp:66-69 | `(int16_t)(lo \| (hi << 8))` is the little-endian int16 of (lo, hi) |
| XboxInputProcessor.ProcessXboxInput | xboxcontrollerdriver/xboxcontrollerdriver/XboxInputProcessor.cpp:15-78 | with no data, no report or fewer than 14 bytes the report is unchanged; otherwise every field is overwritten with Translate of the packet |
| HidDescriptor.DataSize | XboxControllerDriver/XboxHIDInterface.cpp:3-14 | a short item carries 0, 1, 2 or 4 data bytes |
| HidDescriptor.TagOf | XboxControllerDriver/XboxHIDInterface.cpp:3-14 | an item tag is below 16 |
| HidDescriptor.Prefix | XboxControllerDriver/XboxHIDInterface.cpp:3-14 | an encodable item's prefix byte has the item's type, tag and data size |
| HidDescriptor.PrefixRoundTrip | XboxControllerDriver/XboxHIDInterface.cpp:3-14 | any prefix byte other than 0xFE is rebuilt from its type, tag and size |
| HidDescriptor.ParseEncodes | XboxControllerDriver/XboxHIDInterface.cpp:3-14 | a descriptor that parses is exactly the encoding of its items |
| HidDescriptor.EncodeParses | XboxControllerDriver/XboxHIDInterface.cpp:3-14 | encoding items and parsing the bytes gives the items back |
| HidDescriptor.ParseFirst | XboxControllerDriver/XboxHIDInterface.cpp:3-14 | a descriptor that parses starts with a short item whose data fits, followed by bytes that parse |
| HidDescriptor.ParseCons | XboxControllerDriver/XboxHIDInterface.cpp:3-14 | a short item followed by bytes that parse parses as that item and their items |
| HidDescriptor.ParseOne | XboxControllerDriver/XboxHIDInterface.cpp:3-14 | one item's encoding parses as exactly that item |
| HidDescriptor.ParseConcat | XboxControllerDriver/XboxHIDInterface.cpp:3-14 | two descriptors placed one after the other parse as their items in order |
| HidDescriptor.ReadSnoc | XboxControllerDriver/XboxHIDInterface.cpp:3-14 | reading one more item applies one more parser step |
| XboxHIDInterface.HIDDesc | XboxControllerDriver/XboxHIDInterface.cpp:3-14 | the 19 descriptor bytes as the concatenation of one constant per source line; a constant has no contract of its own, and HIDDescParses and HIDDescDeclaresButtons state what it declares |
| XboxHIDInterface.HIDDescLines | XboxControllerDriver/XboxHIDInterface.cpp:4-13 | each line of HIDDesc is one short item: Usage Page, Usage, Collection, ..., End Collection |
| XboxHIDInterface.HIDDescParses | XboxControllerDriver/XboxHIDInterface.cpp:3-14 | HIDDesc parses as exactly its ten short items, and those items encode back to HIDDesc |
| XboxHIDInterface.HIDDescDataSizes | XboxControllerDriver/XboxHIDInterface.cpp:3-14 | ten items, each with a 1-byte payload except the final End Collection, which has none |
| XboxHIDInterface.HIDDescRead | XboxControllerDriver/XboxHIDInterface.cpp:3-14 | reading the items leaves one field, the Button page with Report Size 1 and Report Count 16 in force, no locals pending, every Collection closed |
| XboxHIDInterface.HIDDescBalanced | XboxControllerDriver/XboxHIDInterface.cpp:6-13 | the Collection is closed by the End Collection and no End Collection comes first |
| XboxHIDInterface.HIDDescDeclaresButtons | XboxControllerDriver/XboxHIDInterface.cpp:7-12 | one Data, Variable, Absolute field of usages 1..16 on the Button page, 16 x 1 = 16 bits = the 2 bytes sent, with no logical range declared |
| HidDescriptor.FlagsOfDataVariableAbsolute | XboxControllerDriver/XboxHIDInterface.cpp:12 | Input data 0x02, used by both descriptors (also XboxController.cpp:19), is Data, Variable, Absolute |
| XboxHIDInterface.ReportMask | XboxControllerDriver/XboxHIDInterface.cpp:30-32 | the mask is below 4, odd iff A is pressed, and has bit 1 iff B is |
| XboxHIDInterface.ReportMaskBits | XboxControllerDriver/XboxHIDInterface.cpp:30-32 | mask bit 0 is set iff A is pressed, bit 1 iff B is, and the other 14 bits are clear |
| XboxHIDInterface.ReportBytes | XboxControllerDriver/XboxHIDInterface.cpp:35 | the mask's little-endian image is [mask, 0] with mask below 4 |
| XboxHIDInterface.HidInterface.constructor | XboxControllerDriver/XboxUSBDriver.cpp:17-19 | a fresh 32-byte `hidBuffer` with nothing delivered |
| XboxHIDInterface.HidInterface.UpdateHIDReport | XboxControllerDriver/XboxHIDInterface.cpp:29-39 | the length becomes 2; bytes 0-1 hold the mask little-endian; the rest of the buffer is unchanged; exactly those 2 bytes are delivered as one report |
| XboxUSBDriver.ReadPacketBytes | XboxControllerDriver/XboxUSBDriver.cpp:4-10 | `Xbox360Packet` is 8 bytes with lx at 4-5 and ly at 6-7, and reading its image gives it back |
| XboxUSBDriver.PacketBytesRead | XboxControllerDriver/XboxUSBDriver.cpp:65 | `ReadBytes` decodes exactly the first 8 bytes of the buffer |
| XboxUSBDriver.ReadPacket | XboxControllerDriver/XboxUSBDriver.cpp:64-65 | header, size, buttons1 and buttons2 are bytes 0-3; lx and ly are the little-endian values at 4-5 and 6-7 modulo 2^16, negative iff their high byte has its top bit set |
| XboxUSBDriver.StateOf | XboxControllerDriver/XboxUSBDriver.cpp:70-74 | A iff bit 4 of buttons2, B iff bit 5, and the sticks are lx and ly |
| XboxUSBDriver.Accepts | XboxControllerDriver/XboxUSBDriver.cpp:61-68 | a completion is acted upon iff its status is success and buffer byte 1 is 0x14 |
| XboxUSBDriver.ReportOf | XboxControllerDriver/XboxUSBDriver.cpp:70-76 | the report of a packet is 2 bytes, byte 0 below 4 and byte 1 zero |
| XboxUSBDriver.StateOfPacket | XboxControllerDriver/XboxUSBDriver.cpp:70-74 | A iff bit 4 of byte 3, B iff bit 5 of byte 3, and the sticks are the int16 at offsets 4-5 and 6-7 |
| XboxUSBDriver.ReportOfPacket | XboxControllerDriver/XboxUSBDriver.cpp:70-76 | the report of an accepted packet is 2 bytes: bit 0 is byte 3 bit 4, bit 1 is byte 3 bit 5, and nothing else is set |
| XboxUSBDriver.UsbReader.constructor | XboxControllerDriver/XboxUSBDriver.cpp:13-15 | a fresh 32-byte input buffer, no read outstanding, no request made |
| XboxUSBDriver.UsbReader.StartReading | XboxControllerDriver/XboxUSBDriver.cpp:39-41 | one request of 32 bytes into the input buffer; a read is outstanding iff the submission succeeded; the submission status is returned |
| XboxUSBDriver.UsbReader.HandleReadComplete | XboxControllerDriver/XboxUSBDriver.cpp:58-80 | a failed status is returned as is; a packet with size byte not 0x14 is dropped with success; otherwise exactly one report and one new request; a read stays outstanding only on the accepted path; on the failed and dropped paths the HID side and its buffer are unchanged, and on the accepted path the HID buffer holds the 2-byte report, its length is 2 and the rest of it is untouched |
| XboxUSBDriver.UsbReader.HandleReadCompleteResubmitting | XboxControllerDriver/XboxUSBDriver.cpp:67-77 | like HandleReadComplete, with the same HID buffer and length after each path, but every successful completion queues the next read, so a dropped packet does not stop input |
| XboxUSBDriver.DroppedPacketStopsReading | XboxControllerDriver/XboxUSBDriver.cpp:67-68 | after `StartReading` and an LED-status packet (01 03 ...) completing with success, both handlers deliver nothing; the handler as written leaves no read outstanding, the resubmitting one leaves one |
| XboxController.GXboxHIDReport | XboxControllerDriver/XboxController.cpp:8-21 | the 23 descriptor bytes as the concatenation of one constant per source line; a constant has no contract of its own, and GXboxHIDReportParses and GXboxHIDReportDeclaresButtons state what it declares |
| XboxController.GXboxHIDReportLines | XboxControllerDriver/XboxController.cpp:9-20 | each line of gXboxHIDReport is the short item its comment names |
| XboxController.GXboxHIDReportParses | XboxControllerDriver/XboxController.cpp:8-21 | gXboxHIDReport parses as exactly its twelve short items, and those items encode back to it |
| XboxController.GXboxHIDReportDataSizes | XboxControllerDriver/XboxController.cpp:8-21 | twelve items, each with a 1-byte payload except End Collection; the descriptor opens with Usage Page (Generic Desktop) and Usage (Game Pad) |
| XboxController.GXboxHIDReportRead | XboxControllerDriver/XboxController.cpp:8-21 | reading the items leaves one field, the Button page with logical range 0..1, Report Size 1 and Report Count 16, no locals, every Collection closed |
| XboxController.GXboxHIDReportBalanced | XboxControllerDriver/XboxController.cpp:11-20 | the Collection is closed by the End Collection |
| XboxController.GXboxHIDReportDeclaresButtons | XboxControllerDriver/XboxController.cpp:13-19 | one Data, Variable, Absolute field of usages 1..16 with logical range 0..1, 16 x 1 = 16 bits = `sizeof(uint16_t)` |
| XboxController.ButtonReporter.constructor | XboxControllerDriver/XboxController.cpp:29-40 | the buffer exists, with 2 bytes, iff its creation succeeded |
| XboxController.ButtonReporter.UpdateButtons | XboxControllerDriver/XboxController.cpp:93-118 | no buffer gives kIOReturnError and no delivery; a mapping failure is returned with nothing written or delivered; otherwise the buffer holds the mask little-endian and exactly those 2 bytes are delivered |
| XboxController.ReportIsMask | XboxControllerDriver/XboxController.cpp:105-106 | every mask goes out unfiltered: its 2 bytes read back as the mask, and distinct masks give distinct reports |

## Left out

- `SetupUSB`: only its two 32-byte buffers are modelled; pipe creation, the endpoint descriptor and the `OSAction` are host setup.
- `SendInitCommand`: the LED "magic" packet is output-side host plumbing.
- `init`, `Start`, `Stop`, `free`, `newDeviceDescription` and the `Log` calls are framework glue. `newReportDescriptor` only hands out the descriptor bytes, which are modelled as the constants.
- Asynchronous dispatch and concurrency are left out. A completion is a method call, and `outstanding` counts reads queued on the pipe.
- `XboxControllerState` is declared in no source file of this model (`XboxController.h` does not define it). `ControllerState` has only the four members the handler sets and reads.
- `handleReport`'s timestamp, report type and options are not modelled; a delivery appends the report bytes to `delivered`.
- The `IOMemoryMap` from `CreateMapping` and its `release` are not modelled; the mapping stands for `reportBuffer` itself.
- The `bytes` argument of `HandleReadComplete` is accepted and unused, as in the code.
- `ProcessXboxInput` reads through a pointer with a caller-given length. The model requires `length` not to exceed the array, taking `length` to be the count of valid bytes in the buffer, as the `@param length` of XboxInputProcessor.h:46 describes.
- The header comment's "at least 20 bytes" is not modelled; the code's guard of 14 bytes is.
- `HidDescriptor` interprets only the items these descriptors use. Long items make parsing fail. Report ID, Push/Pop, Delimiter, Output and Feature fields are parsed but declare nothing.

## Findings

| source | as written | input that shows it | evidently intended | confidence | as-written member | corrected member |
|---|---|---|---|---|---|---|
| XboxControllerDriver/XboxUSBDriver.cpp:67-68 | a completion whose packet size byte is not 0x14 returns success without calling `StartReading`, so no read is left on the pipe and no later packet is ever seen | status success, buffer `01 03 06 00 00 00 00 00` (the controller's LED-status message), resubmission success | drop the packet and keep reading: queue the next read on every successful completion | medium, not executed | XboxUSBDriver.UsbReader.HandleReadComplete, XboxUSBDriver.DroppedPacketStopsReading | XboxUSBDriver.UsbReader.HandleReadCompleteResubmitting |
