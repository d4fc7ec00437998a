/** HID report descriptors as the USB Device Class Definition for HID 1.11 defines them:
    a byte sequence of short items (section 6.2.2.2), whose Main items (section 6.2.2.4),
    Global items (section 6.2.2.7) and Local items (section 6.2.2.8) declare the fields
    of the reports a device sends.

    The model parses a descriptor into items, gives their encoding back, and interprets
    the items into the list of Input fields together with the global and local state in
    force at each one, which is what a host reads to learn the input report's layout.
 */
module HidDescriptor {
  import opened Bits
  import opened Wrappers

  datatype ItemType = MainItem | GlobalItem | LocalItem | ReservedItem

  /** A short item: the type and tag of its prefix byte and its data bytes. */
  datatype Item = Item(itemType: ItemType, tag: nat, data: seq<byte>)

  /** Prefix 0xFE begins a long item (section 6.2.2.3). */
  const LongItemPrefix: byte := 0xFE

  // Main item tags (section 6.2.2.4).
  const InputTag: nat := 0x8
  const OutputTag: nat := 0x9
  const CollectionTag: nat := 0xA
  const FeatureTag: nat := 0xB
  const EndCollectionTag: nat := 0xC

  // Global item tags (section 6.2.2.7).
  const UsagePageTag: nat := 0x0
  const LogicalMinimumTag: nat := 0x1
  const LogicalMaximumTag: nat := 0x2
  const ReportSizeTag: nat := 0x7
  const ReportCountTag: nat := 0x9

  // Local item tags (section 6.2.2.8).
  const UsageTag: nat := 0x0
  const UsageMinimumTag: nat := 0x1
  const UsageMaximumTag: nat := 0x2

  /** bSize, bits 0-1 of the prefix: 0, 1, 2 or (code 3) 4 data bytes. */
  function DataSize(prefix: byte): (n: nat)
    ensures n in {0, 1, 2, 4}
  {
    var code := prefix % 4;
    if code == 3 then 4 else code
  }

  /** bType, bits 2-3 of the prefix. */
  function TypeOf(prefix: byte): ItemType
  {
    match (prefix / 4) % 4
    case 0 => MainItem
    case 1 => GlobalItem
    case 2 => LocalItem
    case _ => ReservedItem
  }

  /** bTag, bits 4-7 of the prefix. */
  function TagOf(prefix: byte): (t: nat)
    ensures t < 16
  {
    prefix / 16
  }

  /** Splits a descriptor into short items; None when it holds a long item or its last
      item's data runs past the end. */
  function ParseItems(d: seq<byte>): (r: Option<seq<Item>>)
    decreases |d|
  {
    if d == [] then Some([])
    else if d[0] == LongItemPrefix || |d| < 1 + DataSize(d[0]) then None
    else
      var n := DataSize(d[0]);
      match ParseItems(d[1 + n..])
      case None => None
      case Some(rest) => Some([Item(TypeOf(d[0]), TagOf(d[0]), d[1..1 + n])] + rest)
  }

  function TypeCode(t: ItemType): (c: nat)
    ensures c < 4
  {
    match t
    case MainItem => 0
    case GlobalItem => 1
    case LocalItem => 2
    case ReservedItem => 3
  }

  /** An item that has a short-item encoding other than the long-item prefix. */
  predicate EncodableItem(it: Item)
  {
    it.tag < 16 && |it.data| in {0, 1, 2, 4} &&
    it.tag * 16 + TypeCode(it.itemType) * 4 + (if |it.data| == 4 then 3 else |it.data|) != LongItemPrefix
  }

  /** The prefix byte of an encodable item. */
  function Prefix(it: Item): (p: byte)
    requires EncodableItem(it)
    ensures TypeOf(p) == it.itemType && TagOf(p) == it.tag && DataSize(p) == |it.data|
  {
    it.tag * 16 + TypeCode(it.itemType) * 4 + (if |it.data| == 4 then 3 else |it.data|)
  }

  /** The bytes of a sequence of encodable items. */
  function EncodeItems(items: seq<Item>): seq<byte>
    requires forall i :: 0 <= i < |items| ==> EncodableItem(items[i])
  {
    if items == [] then [] else [Prefix(items[0])] + items[0].data + EncodeItems(items[1..])
  }

  /** A descriptor that parses is exactly the encoding of its items. */
  lemma {:induction false} ParseEncodes(d: seq<byte>)
    requires ParseItems(d).Some?
    ensures forall i :: 0 <= i < |ParseItems(d).value| ==> EncodableItem(ParseItems(d).value[i])
    ensures EncodeItems(ParseItems(d).value) == d
    decreases |d|
  {
    if d != [] {
      var n := DataSize(d[0]);
      ParseFirst(d);
      ParseEncodes(d[1 + n..]);
      var it := Item(TypeOf(d[0]), TagOf(d[0]), d[1..1 + n]);
      var rest := ParseItems(d[1 + n..]).value;
      PrefixRoundTrip(d[0], d[1..1 + n]);
      EncodeFirst(it, rest);
      SplitItem(d, n);
    }
  }

  /** A byte sequence is its first byte, the n bytes after it and the rest. */
  lemma SplitItem(d: seq<byte>, n: nat)
    requires 1 + n <= |d|
    ensures d == [d[0]] + d[1..1 + n] + d[1 + n..]
  {
    assert d[..1] == [d[0]];
    assert d[1..] == d[1..1 + n] + d[1 + n..];
  }

  /** A non-empty descriptor that parses is its first item followed by the items of the
      bytes after that item's data. */
  lemma ParseFirst(d: seq<byte>)
    requires ParseItems(d).Some? && d != []
    ensures d[0] != LongItemPrefix && 1 + DataSize(d[0]) <= |d|
    ensures ParseItems(d[1 + DataSize(d[0])..]).Some?
    ensures ParseItems(d).value ==
      [Item(TypeOf(d[0]), TagOf(d[0]), d[1..1 + DataSize(d[0])])] + ParseItems(d[1 + DataSize(d[0])..]).value
  {
  }

  lemma AppendAssoc(x: seq<Item>, y: seq<Item>, z: seq<Item>)
    ensures x + (y + z) == (x + y) + z
  {
  }

  /** The first byte, the next n bytes and the rest of a + b, for n + 1 bytes within a. */
  lemma ConcatSlices(a: seq<byte>, b: seq<byte>, n: nat)
    requires 1 + n <= |a|
    ensures (a + b)[0] == a[0] && (a + b)[1..1 + n] == a[1..1 + n]
    ensures (a + b)[1 + n..] == a[1 + n..] + b
  {
  }

  /** The converse: a short item whose following bytes parse. */
  lemma ParseCons(d: seq<byte>)
    requires d != [] && d[0] != LongItemPrefix && 1 + DataSize(d[0]) <= |d|
    requires ParseItems(d[1 + DataSize(d[0])..]).Some?
    ensures ParseItems(d) ==
      Some([Item(TypeOf(d[0]), TagOf(d[0]), d[1..1 + DataSize(d[0])])] + ParseItems(d[1 + DataSize(d[0])..]).value)
  {
  }

  /** The encoding of an item followed by more items. */
  lemma EncodeFirst(it: Item, rest: seq<Item>)
    requires EncodableItem(it) && forall i :: 0 <= i < |rest| ==> EncodableItem(rest[i])
    ensures forall i :: 0 <= i < |[it] + rest| ==> EncodableItem(([it] + rest)[i])
    ensures EncodeItems([it] + rest) == [Prefix(it)] + it.data + EncodeItems(rest)
  {
    assert ([it] + rest)[0] == it;
    assert ([it] + rest)[1..] == rest;
  }

  /** The prefix byte of a short item is rebuilt from its type, tag and data size. */
  lemma PrefixRoundTrip(p: byte, data: seq<byte>)
    requires p != LongItemPrefix && |data| == DataSize(p)
    ensures EncodableItem(Item(TypeOf(p), TagOf(p), data))
    ensures Prefix(Item(TypeOf(p), TagOf(p), data)) == p
  {
    assert TypeCode(TypeOf(p)) == (p / 4) % 4;
    assert (if |data| == 4 then 3 else |data|) == p % 4;
  }

  /** Encoding items and parsing the bytes gives the items back. */
  lemma {:induction false} EncodeParses(items: seq<Item>)
    requires forall i :: 0 <= i < |items| ==> EncodableItem(items[i])
    ensures ParseItems(EncodeItems(items)) == Some(items)
  {
    if items != [] {
      var d := EncodeItems(items);
      var n := |items[0].data|;
      EncodeParses(items[1..]);
      assert d[1 + n..] == EncodeItems(items[1..]);
      assert d[1..1 + n] == items[0].data;
      assert [items[0]] + items[1..] == items;
    }
  }

  // ---- Interpretation ------------------------------------------------------------

  /** Item data as an unsigned little-endian number. */
  function Unsigned(data: seq<byte>): nat
  {
    if data == [] then 0 else data[0] + 0x100 * Unsigned(data[1..])
  }

  /** Item data as a two's-complement little-endian number (Logical Minimum/Maximum). */
  function Signed(data: seq<byte>): int
  {
    var u := Unsigned(data);
    if data != [] && data[|data| - 1] >= 0x80 then u - Pow2(8 * |data|) else u
  }

  /** The global item state (section 6.2.2.7); None for an item not yet declared. */
  datatype Globals = Globals(
    usagePage: Option<nat>,
    logicalMinimum: Option<int>,
    logicalMaximum: Option<int>,
    reportSize: Option<nat>,
    reportCount: Option<nat>)

  /** The local item state (section 6.2.2.8), cleared after every Main item. */
  datatype Locals = Locals(usages: seq<nat>, usageMinimum: Option<nat>, usageMaximum: Option<nat>)

  const NoGlobals := Globals(None, None, None, None, None)
  const NoLocals := Locals([], None, None)

  /** An Input item: its data byte (Data/Constant, Array/Variable, ... flags) and the state
      that describes the field it adds to the input report. */
  datatype InputField = InputField(flags: nat, globals: Globals, locals: Locals)

  function UpdateGlobals(g: Globals, it: Item): Globals
  {
    if it.tag == UsagePageTag then g.(usagePage := Some(Unsigned(it.data)))
    else if it.tag == LogicalMinimumTag then g.(logicalMinimum := Some(Signed(it.data)))
    else if it.tag == LogicalMaximumTag then g.(logicalMaximum := Some(Signed(it.data)))
    else if it.tag == ReportSizeTag then g.(reportSize := Some(Unsigned(it.data)))
    else if it.tag == ReportCountTag then g.(reportCount := Some(Unsigned(it.data)))
    else g
  }

  function UpdateLocals(l: Locals, it: Item): Locals
  {
    if it.tag == UsageTag then l.(usages := l.usages + [Unsigned(it.data)])
    else if it.tag == UsageMinimumTag then l.(usageMinimum := Some(Unsigned(it.data)))
    else if it.tag == UsageMaximumTag then l.(usageMaximum := Some(Unsigned(it.data)))
    else l
  }

  /** What a host knows after reading some items (section 6.2.2): the Input fields
      declared so far, the global and local item state in force, the Collection nesting
      depth, and whether every End Collection so far closed an open Collection. */
  datatype ParserState = ParserState(
    fields: seq<InputField>,
    globals: Globals,
    locals: Locals,
    depth: nat,
    nested: bool)

  const InitialState := ParserState([], NoGlobals, NoLocals, 0, true)

  /** Reading one more item. A Main item clears the locals; an Input item first adds a
      field described by the state in force; Collection opens a level and End Collection
      closes one. A Global or Local item updates its part of the state. */
  function Step(s: ParserState, it: Item): ParserState
  {
    match it.itemType
    case MainItem =>
      var fields :=
        if it.tag == InputTag then s.fields + [InputField(Unsigned(it.data), s.globals, s.locals)]
        else s.fields;
      if it.tag == CollectionTag then
        ParserState(fields, s.globals, NoLocals, s.depth + 1, s.nested)
      else if it.tag == EndCollectionTag then
        ParserState(fields, s.globals, NoLocals, if s.depth > 0 then s.depth - 1 else 0,
                    s.nested && s.depth > 0)
      else ParserState(fields, s.globals, NoLocals, s.depth, s.nested)
    case GlobalItem => s.(globals := UpdateGlobals(s.globals, it))
    case LocalItem => s.(locals := UpdateLocals(s.locals, it))
    case ReservedItem => s
  }

  /** The state after reading the items in order from the initial state. */
  function Read(items: seq<Item>): ParserState
  {
    if items == [] then InitialState else Step(Read(items[..|items| - 1]), items[|items| - 1])
  }

  /** The Input fields the items declare, in order. */
  function InputFields(items: seq<Item>): seq<InputField>
  {
    Read(items).fields
  }

  /** Collection and End Collection items nest properly. */
  predicate Balanced(items: seq<Item>)
  {
    Read(items).nested && Read(items).depth == 0
  }

  /** Reading one item more is one more step. */
  lemma ReadSnoc(items: seq<Item>, it: Item)
    ensures Read(items + [it]) == Step(Read(items), it)
  {
    assert (items + [it])[..|items|] == items;
  }

  /** Bits one Input field adds to the report: Report Size times Report Count. An
      undeclared size or count adds nothing. */
  function FieldBits(f: InputField): nat
  {
    f.globals.reportSize.GetOr(0) * f.globals.reportCount.GetOr(0)
  }

  /** Total bits of the input report the fields declare. */
  function ReportBits(fields: seq<InputField>): nat
  {
    if fields == [] then 0 else FieldBits(fields[0]) + ReportBits(fields[1..])
  }

  /** Usages one field names through its Usage Minimum..Usage Maximum range and its Usage
      items. */
  function UsageCount(f: InputField): nat
  {
    var range :=
      if f.locals.usageMinimum.Some? && f.locals.usageMaximum.Some?
         && f.locals.usageMinimum.value <= f.locals.usageMaximum.value
      then f.locals.usageMaximum.value - f.locals.usageMinimum.value + 1
      else 0;
    range + |f.locals.usages|
  }

  // Input item data bits (section 6.2.2.5): bit 0 Constant, bit 1 Variable, bit 2 Relative.
  predicate IsDataVariableAbsolute(f: InputField)
  {
    !BitSet(f.flags, 0) && BitSet(f.flags, 1) && !BitSet(f.flags, 2)
  }

  /** Input flags 0x02, the flags both descriptors give their buttons: Data (bit 0 clear),
      Variable (bit 1 set), Absolute (bit 2 clear). */
  lemma FlagsOfDataVariableAbsolute()
    ensures !BitSet(0x02, 0) && BitSet(0x02, 1) && !BitSet(0x02, 2)
  {
    assert 0x02 / 2 == 1;
  }

  // ---- Evaluating a descriptor item by item --------------------------------------

  /** The encoding of one item parses as that item. */
  lemma ParseOne(line: seq<byte>, it: Item)
    requires EncodableItem(it) && line == [Prefix(it)] + it.data
    ensures ParseItems(line) == Some([it])
  {
    EncodeParses([it]);
    assert [it][1..] == [];
    assert EncodeItems([it]) == line;
  }

  /** Two descriptors placed one after the other parse as the first one's items followed
      by the second one's. */
  lemma {:induction false} ParseConcat(a: seq<byte>, b: seq<byte>)
    requires ParseItems(a).Some? && ParseItems(b).Some?
    ensures ParseItems(a + b) == Some(ParseItems(a).value + ParseItems(b).value)
    decreases |a|
  {
    if a == [] {
      assert a + b == b;
      assert [] + ParseItems(b).value == ParseItems(b).value;
    } else {
      var n := DataSize(a[0]);
      var tail := a[1 + n..];
      ParseFirst(a);
      ParseConcat(tail, b);
      var rest := ParseItems(tail).value;
      var it := Item(TypeOf(a[0]), TagOf(a[0]), a[1..1 + n]);
      var ab := a + b;
      ConcatSlices(a, b, n);
      ParseCons(ab);
      AppendAssoc([it], rest, ParseItems(b).value);
    }
  }
}
