/** The read-completion side of the USB driver: `StartReading`, which queues one 32-byte
    read of the interrupt-in pipe into `inputBuffer`, and `HandleReadComplete`, which decodes
    the first 8 bytes of that buffer as an `Xbox360Packet`, turns it into a controller state
    for `UpdateHIDReport` and queues the next read.
 */
module XboxUSBDriver {
  import opened Bits
  import opened IoReturn
  import opened XboxHIDInterface

  /** The `Xbox360Packet` structure, in its natural (unpacked) layout: header at offset 0,
      size at 1, buttons1 at 2, buttons2 at 3, then `lx` at 4-5 and `ly` at 6-7; 8 bytes
      with no padding. */
  datatype Xbox360Packet = Xbox360Packet(
    header: byte,
    size: byte,
    buttons1: byte,
    buttons2: byte,
    lx: int16,
    ly: int16)

  /** `sizeof(Xbox360Packet)`: the bytes `ReadBytes` copies out of the input buffer. */
  const PacketSize: nat := 8

  /** The size of `inputBuffer` and the length of every read request. */
  const ReadLength: nat := 32

  /** The only size byte the handler accepts. */
  const InputPacketSize: byte := 0x14

  /** Bit masks on `buttons2` for A and B. */
  const AButtonMask: nat := 0x10
  const BButtonMask: nat := 0x20

  /** The memory image of a packet on a little-endian host. */
  function PacketBytes(p: Xbox360Packet): (b: seq<byte>)
  {
    [p.header, p.size, p.buttons1, p.buttons2] + Int16Bytes(p.lx) + Int16Bytes(p.ly)
  }

  /** The packet `ReadBytes(0, &pkt, sizeof(pkt))` copies out of a buffer. */
  function ReadPacket(b: seq<byte>): (p: Xbox360Packet)
    requires |b| >= PacketSize
    ensures [p.header, p.size, p.buttons1, p.buttons2] == b[..4]
    ensures (p.lx - (b[4] as int + 0x100 * b[5] as int)) % 0x1_0000 == 0 && (p.lx < 0 <==> b[5] >= 0x80)
    ensures (p.ly - (b[6] as int + 0x100 * b[7] as int)) % 0x1_0000 == 0 && (p.ly < 0 <==> b[7] >= 0x80)
  {
    Xbox360Packet(b[0], b[1], b[2], b[3], Int16Le(b[4], b[5]), Int16Le(b[6], b[7]))
  }

  lemma ReadPacketBytes(p: Xbox360Packet)
    ensures |PacketBytes(p)| == PacketSize && ReadPacket(PacketBytes(p)) == p
  {
    Int16RoundTrip(p.lx);
    Int16RoundTrip(p.ly);
  }

  /** Only the first 8 bytes are decoded; what the buffer holds after them never matters. */
  lemma PacketBytesRead(b: seq<byte>)
    requires |b| >= PacketSize
    ensures PacketBytes(ReadPacket(b)) == b[..PacketSize]
  {
    Int16BytesRoundTrip(b[4], b[5]);
    Int16BytesRoundTrip(b[6], b[7]);
  }

  /** The controller state the handler fills in from an accepted packet. */
  function StateOf(p: Xbox360Packet): (s: ControllerState)
    ensures s.buttonA <==> BitSet(p.buttons2, 4)
    ensures s.buttonB <==> BitSet(p.buttons2, 5)
    ensures s.leftStickX == p.lx && s.leftStickY == p.ly
  {
    Pow2Table();
    SingleBitTest(p.buttons2, 4);
    SingleBitTest(p.buttons2, 5);
    ControllerState(
      And(p.buttons2, AButtonMask) != 0,
      And(p.buttons2, BButtonMask) != 0,
      p.lx,
      p.ly)
  }

  /** A is pressed exactly when bit 4 of `buttons2` (offset 3) is set, B exactly when bit 5
      is; the sticks are the little-endian int16 values at offsets 4-5 and 6-7. */
  lemma StateOfPacket(b: seq<byte>)
    requires |b| >= PacketSize
    ensures StateOf(ReadPacket(b)).buttonA <==> BitSet(b[3], 4)
    ensures StateOf(ReadPacket(b)).buttonB <==> BitSet(b[3], 5)
    ensures StateOf(ReadPacket(b)).leftStickX == Int16Le(b[4], b[5])
    ensures StateOf(ReadPacket(b)).leftStickY == Int16Le(b[6], b[7])
  {
  }

  /** A completion is acted upon exactly when its status is success and the size byte of the
      packet in the buffer is 0x14; the header byte and the transferred byte count play no
      part. */
  predicate Accepts(status: int, b: seq<byte>)
    requires |b| >= PacketSize
    ensures Accepts(status, b) <==> status == Success && b[1] == InputPacketSize
  {
    status == Success && ReadPacket(b).size == InputPacketSize
  }

  /** The report an accepted packet produces. */
  function ReportOf(b: seq<byte>): (r: seq<byte>)
    requires |b| >= PacketSize
    ensures |r| == 2 && r[0] < 4 && r[1] == 0
  {
    ReportBytes(StateOf(ReadPacket(b)));
    Le16(ReportMask(StateOf(ReadPacket(b))))
  }

  /** In the report derived from a packet, bit 0 is bit 4 of byte 3, bit 1 is bit 5 of
      byte 3, byte 1 is zero and no other bit is set: A and B are the only buttons. */
  lemma ReportOfPacket(b: seq<byte>, k: nat)
    requires |b| >= PacketSize
    ensures |ReportOf(b)| == 2 && ReportOf(b)[1] == 0
    ensures BitSet(ReportOf(b)[0], k) <==> (k == 0 && BitSet(b[3], 4)) || (k == 1 && BitSet(b[3], 5))
  {
    ReportBytes(StateOf(ReadPacket(b)));
    ReportMaskBits(StateOf(ReadPacket(b)), k);
    StateOfPacket(b);
  }

  /** Reads queued after a completion, when resubmission reports `submitStatus`. */
  function QueuedAfter(resubmitted: bool, submitStatus: int): nat
  {
    if resubmitted && submitStatus == Success then 1 else 0
  }

  /** One `AsyncIO` call: the buffer it reads into and the bytes it asks for. */
  datatype ReadRequest = ReadRequest(buffer: array<byte>, length: nat)

  /** The driver state the two functions touch. */
  class UsbReader {
    const inputBuffer: array<byte>
    const hid: HidInterface
    /** Reads queued on the pipe and not yet completed. */
    var outstanding: nat
    /** Every `AsyncIO` call made, oldest first. */
    var requests: seq<ReadRequest>

    predicate Valid()
      reads this, hid
    {
      inputBuffer.Length == ReadLength && hid.Valid() && inputBuffer != hid.hidBuffer
      && outstanding <= 1
    }

    constructor (h: HidInterface)
      requires h.Valid()
      ensures Valid() && fresh(inputBuffer) && hid == h
      ensures outstanding == 0 && requests == []
    {
      inputBuffer := new byte[ReadLength];
      hid := h;
      outstanding := 0;
      requests := [];
    }

    /** Queues one read of 32 bytes into `inputBuffer` and returns what `AsyncIO` returned,
        `submitStatus`; only a successful submission leaves a read outstanding. */
    method StartReading(submitStatus: int) returns (r: int)
      requires Valid() && outstanding == 0
      modifies this
      ensures Valid() && r == submitStatus
      ensures requests == old(requests) + [ReadRequest(inputBuffer, ReadLength)]
      ensures outstanding == QueuedAfter(true, submitStatus)
    {
      requests := requests + [ReadRequest(inputBuffer, ReadLength)];
      if submitStatus == Success {
        outstanding := outstanding + 1;
      }
      r := submitStatus;
    }

    /** The completion of the one outstanding read, with transfer status `status` and
        `bytes` transferred. A failed status is returned as is; a packet whose size byte is
        not 0x14 is dropped with success; otherwise A, B and the left stick go to
        `UpdateHIDReport` and the next read is queued, its submit status ignored. Only the
        accepted path queues a read. */
    method HandleReadComplete(status: int, bytes: nat, submitStatus: int) returns (r: int)
      requires Valid() && outstanding == 1
      modifies this, hid, hid.hidBuffer
      ensures Valid()
      ensures r == (if status != Success then status else Success)
      ensures var b := old(inputBuffer[..]);
        && (Accepts(status, b) ==>
              hid.delivered == old(hid.delivered) + [ReportOf(b)]
              && requests == old(requests) + [ReadRequest(inputBuffer, ReadLength)])
        && (!Accepts(status, b) ==>
              hid.delivered == old(hid.delivered) && requests == old(requests))
        && outstanding == QueuedAfter(Accepts(status, b), submitStatus)
      ensures inputBuffer[..] == old(inputBuffer[..])
      ensures !Accepts(status, old(inputBuffer[..])) ==> unchanged(hid) && unchanged(hid.hidBuffer)
      ensures Accepts(status, old(inputBuffer[..])) ==>
        && hid.hidLength == ReportLength
        && hid.hidBuffer[..ReportLength] == ReportOf(old(inputBuffer[..]))
        && hid.hidBuffer[ReportLength..] == old(hid.hidBuffer[ReportLength..])
    {
      ghost var b := inputBuffer[..];
      outstanding := outstanding - 1;
      if status != Success {
        return status;
      }

      var pkt := ReadPacket(inputBuffer[..PacketSize]);
      assert pkt == ReadPacket(b);
      if pkt.size != InputPacketSize {
        return Success;
      }

      var s := ControllerState(false, false, 0, 0);
      s := s.(buttonA := And(pkt.buttons2, AButtonMask) != 0);
      s := s.(buttonB := And(pkt.buttons2, BButtonMask) != 0);
      s := s.(leftStickX := pkt.lx);
      s := s.(leftStickY := pkt.ly);
      assert s == StateOf(ReadPacket(b));

      hid.UpdateHIDReport(s);
      var _ := StartReading(submitStatus);

      r := Success;
    }

    /** `HandleReadComplete` with the dropped-packet path also queueing the next read: every
        completion with a successful status leaves a read outstanding when the submission
        succeeds, so a stray non-input packet does not end reading. */
    method HandleReadCompleteResubmitting(status: int, bytes: nat, submitStatus: int)
      returns (r: int)
      requires Valid() && outstanding == 1
      modifies this, hid, hid.hidBuffer
      ensures Valid()
      ensures r == (if status != Success then status else Success)
      ensures var b := old(inputBuffer[..]);
        && (Accepts(status, b) ==> hid.delivered == old(hid.delivered) + [ReportOf(b)])
        && (!Accepts(status, b) ==> hid.delivered == old(hid.delivered))
        && (status == Success ==>
              requests == old(requests) + [ReadRequest(inputBuffer, ReadLength)])
        && (status != Success ==> requests == old(requests))
        && outstanding == QueuedAfter(status == Success, submitStatus)
      ensures inputBuffer[..] == old(inputBuffer[..])
      ensures !Accepts(status, old(inputBuffer[..])) ==> unchanged(hid) && unchanged(hid.hidBuffer)
      ensures Accepts(status, old(inputBuffer[..])) ==>
        && hid.hidLength == ReportLength
        && hid.hidBuffer[..ReportLength] == ReportOf(old(inputBuffer[..]))
        && hid.hidBuffer[ReportLength..] == old(hid.hidBuffer[ReportLength..])
    {
      ghost var b := inputBuffer[..];
      outstanding := outstanding - 1;
      if status != Success {
        return status;
      }

      var pkt := ReadPacket(inputBuffer[..PacketSize]);
      assert pkt == ReadPacket(b);
      if pkt.size == InputPacketSize {
        var s := ControllerState(false, false, 0, 0);
        s := s.(buttonA := And(pkt.buttons2, AButtonMask) != 0);
        s := s.(buttonB := And(pkt.buttons2, BButtonMask) != 0);
        s := s.(leftStickX := pkt.lx);
        s := s.(leftStickY := pkt.ly);
        assert s == StateOf(ReadPacket(b));
        hid.UpdateHIDReport(s);
      }
      var _ := StartReading(submitStatus);

      r := Success;
    }
  }

  /** A packet that is not an input report, the controller's LED-status message (type
      0x01, size 0x03), completing with a successful status on a freshly started reader whose
      submissions all succeed. The handler as written delivers nothing and is left with no
      read outstanding, so no further completion can arrive and input stops; the
      resubmitting handler also delivers nothing but leaves one read queued. */
  method DroppedPacketStopsReading() returns (queuedAsWritten: nat, queuedResubmitting: nat)
    ensures queuedAsWritten == 0 && queuedResubmitting == 1
  {
    var hid := new HidInterface();
    var reader := new UsbReader(hid);
    var _ := reader.StartReading(Success);
    reader.inputBuffer[0] := 0x01;
    reader.inputBuffer[1] := 0x03;
    var _ := reader.HandleReadComplete(Success, 3, Success);
    assert hid.delivered == [];
    queuedAsWritten := reader.outstanding;

    var hid2 := new HidInterface();
    var reader2 := new UsbReader(hid2);
    var _ := reader2.StartReading(Success);
    reader2.inputBuffer[0] := 0x01;
    reader2.inputBuffer[1] := 0x03;
    var _ := reader2.HandleReadCompleteResubmitting(Success, 3, Success);
    assert hid2.delivered == [];
    queuedResubmitting := reader2.outstanding;
  }
}
