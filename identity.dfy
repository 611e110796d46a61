/**
 * Identity query of a physical drive (`get_drive_model_and_type`): the
 * decoding of the 1024-byte storage-device descriptor that the
 * device-property query returns. The descriptor is a `repr(C)` record
 * whose vendor-id and product-id fields are byte offsets of NUL-terminated
 * strings inside the same buffer (offset 0: field absent), followed by a
 * one-byte bus-type code.
 *
 * The open and the device-property query are not modelled as calls: their
 * outcome is the input `PropertyReply`.
 */
module Identity {
  import opened Wrappers
  import opened Ints

  /** Size of the response buffer handed to the property query. */
  const DescriptorBufferSize: nat := 1024
  /** Byte positions of the fields read from the `repr(C)` descriptor. */
  const VendorIdOffsetAt: nat := 12
  const ProductIdOffsetAt: nat := 16
  const BusTypeAt: nat := 28
  /** `size_of::<STORAGE_DEVICE_DESCRIPTOR>()`: 37 bytes of fields, padded to 4. */
  const DescriptorHeaderSize: nat := 40

  /** What the open and the device-property query of one drive index gave back. */
  datatype PropertyReply =
    | OpenFailed                      // CreateFileW returned INVALID_HANDLE_VALUE
    | QueryFailed                     // DeviceIoControl returned 0
    | Answered(buffer: seq<byte>)     // the filled response buffer

  /** The pair the source returns: model string and bus-type name. */
  datatype DriveIdentity = DriveIdentity(model: string, busType: string)

  // ---------------------------------------------------------------------
  // Little-endian fields

  /** The little-endian `u32` stored at `buf[at..at + 4]`. */
  function LeU32(buf: seq<byte>, at: nat): (v: u32)
    requires at + 4 <= |buf|
    ensures v % 0x100 == buf[at] && v / 0x100_0000 == buf[at + 3]
  {
    buf[at] as int + 0x100 * buf[at + 1] as int + 0x1_0000 * buf[at + 2] as int
      + 0x100_0000 * buf[at + 3] as int
  }

  /** The four little-endian bytes of `x`. */
  function U32Le(x: u32): (b: seq<byte>)
    ensures |b| == 4
  {
    var q1 := x / 0x100;
    var q2 := q1 / 0x100;
    [x % 0x100, q1 % 0x100, q2 % 0x100, q2 / 0x100]
  }

  /** Reading a `u32` back from the bytes it was written as gives the number. */
  lemma U32LeRoundTrip(x: u32, buf: seq<byte>, at: nat)
    requires at + 4 <= |buf| && buf[at..at + 4] == U32Le(x)
    ensures LeU32(buf, at) == x
  {
    var q1 := x / 0x100;
    var q2 := q1 / 0x100;
    var b0, b1, b2, b3 := x % 0x100, q1 % 0x100, q2 % 0x100, q2 / 0x100;
    assert buf[at] == b0 && buf[at + 1] == b1 && buf[at + 2] == b2 && buf[at + 3] == b3 by {
      assert buf[at..at + 4][0] == b0 && buf[at..at + 4][1] == b1;
      assert buf[at..at + 4][2] == b2 && buf[at..at + 4][3] == b3;
    }
    assert q2 == b2 + 0x100 * b3;
    assert q1 == b1 + 0x100 * q2;
    assert x == b0 + 0x100 * q1;
  }

  // ---------------------------------------------------------------------
  // NUL-terminated strings inside the buffer

  /** Some NUL byte lies at or after position `at`. */
  predicate NulFollows(buf: seq<byte>, at: nat) {
    exists j :: at <= j < |buf| && buf[j] == 0
  }

  /**
   * The bytes from `at` up to (not including) the first NUL at or after it,
   * as `CStr::from_ptr` reads them.
   */
  function CStrAt(buf: seq<byte>, at: nat): (s: seq<byte>)
    requires NulFollows(buf, at)
    ensures at + |s| < |buf| && buf[at + |s|] == 0
    ensures s == buf[at..at + |s|]
    ensures forall i :: 0 <= i < |s| ==> s[i] != 0
    decreases |buf| - at
  {
    if buf[at] == 0 then []
    else
      assert NulFollows(buf, at + 1);
      [buf[at]] + CStrAt(buf, at + 1)
  }

  /** Bytes read as characters, one character per byte. */
  function Text(s: seq<byte>): (t: string)
    ensures |t| == |s| && forall i :: 0 <= i < |s| ==> t[i] as int == s[i]
  {
    seq(|s|, i requires 0 <= i < |s| => s[i] as char)
  }

  /**
   * One string field of the descriptor: absent when its offset is 0
   * (the buffer is then not read), else the NUL-terminated text at the offset.
   */
  function ReadField(buf: seq<byte>, offset: u32): (r: Option<string>)
    requires offset != 0 ==> NulFollows(buf, offset)
    ensures r.None? <==> offset == 0
    ensures r.Some? ==> offset + |r.value| < |buf| && buf[offset + |r.value|] == 0
    ensures r.Some? ==> forall i :: 0 <= i < |r.value| ==>
                          buf[offset + i] != 0 && r.value[i] as int == buf[offset + i]
  {
    if offset == 0 then None else Some(Text(CStrAt(buf, offset)))
  }

  // ---------------------------------------------------------------------
  // Bus-type table

  /** The codes the table names: 0x01 to 0x12 and 0x7F. */
  predicate IsNamedBusCode(code: byte) {
    0x01 <= code <= 0x12 || code == 0x7F
  }

  /** The bus-type name of a descriptor's `BusType` code. */
  function BusTypeName(code: byte): (name: string)
    ensures name == "UNKNOWN" <==> !IsNamedBusCode(code)
  {
    match code
    case 0x01 => "SCSI"
    case 0x02 => "ATAPI"
    case 0x03 => "ATA"
    case 0x04 => "1394"
    case 0x05 => "SSA"
    case 0x06 => "Fibre"
    case 0x07 => "USB"
    case 0x08 => "RAID"
    case 0x09 => "iSCSI"
    case 0x0A => "SAS"
    case 0x0B => "SATA"
    case 0x0C => "SD"
    case 0x0D => "MMC"
    case 0x0E => "VIRTUAL"
    case 0x0F => "FileBackedVirtual"
    case 0x10 => "Spaces"
    case 0x11 => "NVMe"
    case 0x12 => "SCM"
    case 0x7F => "BusTypeMaxReserved"
    case _ => "UNKNOWN"
  }

  /** The code a bus-type name stands for: the table read right to left. */
  function BusCodeOf(name: string): (code: Option<byte>)
    ensures code.Some? ==> IsNamedBusCode(code.value)
  {
    if name == "SCSI" then Some(0x01)
    else if name == "ATAPI" then Some(0x02)
    else if name == "ATA" then Some(0x03)
    else if name == "1394" then Some(0x04)
    else if name == "SSA" then Some(0x05)
    else if name == "Fibre" then Some(0x06)
    else if name == "USB" then Some(0x07)
    else if name == "RAID" then Some(0x08)
    else if name == "iSCSI" then Some(0x09)
    else if name == "SAS" then Some(0x0A)
    else if name == "SATA" then Some(0x0B)
    else if name == "SD" then Some(0x0C)
    else if name == "MMC" then Some(0x0D)
    else if name == "VIRTUAL" then Some(0x0E)
    else if name == "FileBackedVirtual" then Some(0x0F)
    else if name == "Spaces" then Some(0x10)
    else if name == "NVMe" then Some(0x11)
    else if name == "SCM" then Some(0x12)
    else if name == "BusTypeMaxReserved" then Some(0x7F)
    else None
  }

  /** The names of codes 0x01 to 0x05 read back as their codes. */
  lemma BusNamesRoundTripStorage(code: byte)
    requires 0x01 <= code <= 0x05
    ensures BusCodeOf(BusTypeName(code)) == Some(code)
  {
    match code
    case 0x01 => assert BusCodeOf("SCSI") == Some(0x01);
    case 0x02 => assert BusCodeOf("ATAPI") == Some(0x02);
    case 0x03 => assert BusCodeOf("ATA") == Some(0x03);
    case 0x04 => assert BusCodeOf("1394") == Some(0x04);
    case 0x05 => assert BusCodeOf("SSA") == Some(0x05);
  }

  /** The names of codes 0x06 to 0x0A read back as their codes. */
  lemma BusNamesRoundTripPeripheral(code: byte)
    requires 0x06 <= code <= 0x0A
    ensures BusCodeOf(BusTypeName(code)) == Some(code)
  {
    match code
    case 0x06 => assert BusCodeOf("Fibre") == Some(0x06);
    case 0x07 => assert BusCodeOf("USB") == Some(0x07);
    case 0x08 => assert BusCodeOf("RAID") == Some(0x08);
    case 0x09 => assert BusCodeOf("iSCSI") == Some(0x09);
    case 0x0A => assert BusCodeOf("SAS") == Some(0x0A);
  }

  /** The names of codes 0x0B to 0x0F read back as their codes. */
  lemma BusNamesRoundTripSerial(code: byte)
    requires 0x0B <= code <= 0x0F
    ensures BusCodeOf(BusTypeName(code)) == Some(code)
  {
    match code
    case 0x0B => assert BusCodeOf("SATA") == Some(0x0B);
    case 0x0C => assert BusCodeOf("SD") == Some(0x0C);
    case 0x0D => assert BusCodeOf("MMC") == Some(0x0D);
    case 0x0E => assert BusCodeOf("VIRTUAL") == Some(0x0E);
    case 0x0F => assert BusCodeOf("FileBackedVirtual") == Some(0x0F);
  }

  /** The names of codes 0x10 to 0x12 and 0x7F read back as their codes. */
  lemma BusNamesRoundTripRecent(code: byte)
    requires 0x10 <= code <= 0x12 || code == 0x7F
    ensures BusCodeOf(BusTypeName(code)) == Some(code)
  {
    match code
    case 0x10 => assert BusCodeOf("Spaces") == Some(0x10);
    case 0x11 => assert BusCodeOf("NVMe") == Some(0x11);
    case 0x12 => assert BusCodeOf("SCM") == Some(0x12);
    case 0x7F => assert BusCodeOf("BusTypeMaxReserved") == Some(0x7F);
  }

  /**
   * Every named code has its own name: the table can be read back, so no
   * two named codes share a name, and every other code reads as "UNKNOWN".
   */
  lemma BusTypeNameRoundTrip(code: byte)
    ensures IsNamedBusCode(code) ==> BusCodeOf(BusTypeName(code)) == Some(code)
    ensures !IsNamedBusCode(code) ==> BusCodeOf(BusTypeName(code)) == None
  {
    if !IsNamedBusCode(code) {
    } else if code <= 0x05 {
      BusNamesRoundTripStorage(code);
    } else if code <= 0x0A {
      BusNamesRoundTripPeripheral(code);
    } else if code <= 0x0F {
      BusNamesRoundTripSerial(code);
    } else {
      BusNamesRoundTripRecent(code);
    }
  }

  // ---------------------------------------------------------------------
  // The descriptor

  /**
   * The reply buffer as the source may read it: 1024 bytes, and a NUL at or
   * after each non-zero string offset (so `CStr::from_ptr` stays inside).
   */
  predicate WellFormedDescriptor(buf: seq<byte>) {
    |buf| == DescriptorBufferSize &&
    (LeU32(buf, VendorIdOffsetAt) != 0 ==> NulFollows(buf, LeU32(buf, VendorIdOffsetAt))) &&
    (LeU32(buf, ProductIdOffsetAt) != 0 ==> NulFollows(buf, LeU32(buf, ProductIdOffsetAt)))
  }

  /** Vendor, one space, product; an absent field is an empty segment. */
  function ModelString(vendor: Option<string>, product: Option<string>): (m: string)
    ensures |m| == |vendor.GetOr("")| + 1 + |product.GetOr("")|
    ensures m[|vendor.GetOr("")|] == ' '
    ensures m[..|vendor.GetOr("")|] == vendor.GetOr("")
    ensures m[|vendor.GetOr("")| + 1..] == product.GetOr("")
  {
    vendor.GetOr("") + " " + product.GetOr("")
  }

  /** The model string and bus-type name encoded in a descriptor buffer. */
  function DecodeDescriptor(buf: seq<byte>): (d: DriveIdentity)
    requires WellFormedDescriptor(buf)
    ensures d.busType == BusTypeName(buf[BusTypeAt])
    ensures |d.model| >= 1
    ensures LeU32(buf, VendorIdOffsetAt) == 0 ==> d.model[0] == ' '
    ensures LeU32(buf, ProductIdOffsetAt) == 0 ==> d.model[|d.model| - 1] == ' '
  {
    var vendor := ReadField(buf, LeU32(buf, VendorIdOffsetAt));
    var product := ReadField(buf, LeU32(buf, ProductIdOffsetAt));
    DriveIdentity(ModelString(vendor, product), BusTypeName(buf[BusTypeAt]))
  }

  /** A reply the source can decode without reading outside the buffer. */
  predicate WellFormedReply(reply: PropertyReply) {
    reply.Answered? ==> WellFormedDescriptor(reply.buffer)
  }

  /**
   * `get_drive_model_and_type`: `None` exactly when the open or the
   * property query failed, otherwise the decoded descriptor.
   */
  function DriveModelAndType(reply: PropertyReply): (r: Option<DriveIdentity>)
    requires WellFormedReply(reply)
    ensures r.None? <==> !reply.Answered?
    ensures r.Some? ==> r.value.busType == BusTypeName(reply.buffer[BusTypeAt])
  {
    match reply
    case OpenFailed => None
    case QueryFailed => None
    case Answered(buf) => Some(DecodeDescriptor(buf))
  }

  // ---------------------------------------------------------------------
  // Partner: building a descriptor buffer, and decoding it back

  function Zeros(n: nat): (z: seq<byte>)
    ensures |z| == n && forall i :: 0 <= i < n ==> z[i] == 0
  {
    seq(n, i => 0)
  }


  /** Room for both strings and their NULs after the fixed header. */
  predicate Fits(vendor: Option<seq<byte>>, product: Option<seq<byte>>) {
    DescriptorHeaderSize + |vendor.GetOr([])| + 1 + |product.GetOr([])| + 1 <= DescriptorBufferSize
  }

  /** Where each present string is placed: vendor first, product after it. */
  function VendorPos(vendor: Option<seq<byte>>): nat {
    if vendor.None? then 0 else DescriptorHeaderSize
  }

  function ProductPos(vendor: Option<seq<byte>>, product: Option<seq<byte>>): nat {
    if product.None? then 0
    else if vendor.None? then DescriptorHeaderSize
    else DescriptorHeaderSize + |vendor.value| + 1
  }

  function Terminated(s: Option<seq<byte>>): seq<byte> {
    if s.None? then [] else s.value + [0]
  }

  /**
   * A 1024-byte descriptor as a device would fill it: the fixed header with
   * the two offsets and the bus code, then the NUL-terminated strings.
   */
  function EncodeDescriptor(vendor: Option<seq<byte>>, product: Option<seq<byte>>, bus: byte): (buf: seq<byte>)
    requires Fits(vendor, product)
    ensures |buf| == DescriptorBufferSize
  {
    var header := Zeros(12) + U32Le(VendorPos(vendor)) + U32Le(ProductPos(vendor, product))
                  + Zeros(8) + [bus] + Zeros(11);
    var strings := Terminated(vendor) + Terminated(product);
    header + strings + Zeros(DescriptorBufferSize - |header| - |strings|)
  }

  /** A NUL-free string placed at `at` and followed by a NUL reads back as itself. */
  lemma {:induction false} CStrAtPlaced(buf: seq<byte>, at: nat, s: seq<byte>)
    requires NulFree(s) && at + |s| < |buf|
    requires buf[at..at + |s|] == s && buf[at + |s|] == 0
    ensures NulFollows(buf, at) && CStrAt(buf, at) == s
    decreases |s|
  {
    assert buf[at + |s|] == 0;
    if s == [] {
      assert buf[at] == 0;
    } else {
      assert buf[at] == s[0];
      assert buf[at + 1..at + 1 + |s[1..]|] == buf[at..at + |s|][1..];
      CStrAtPlaced(buf, at + 1, s[1..]);
      assert s == [s[0]] + s[1..];
    }
  }

  /** The field read at a placed string's offset is that string's text. */
  lemma FieldPlaced(buf: seq<byte>, at: nat, s: Option<seq<byte>>)
    requires PlacedAt(buf, at, s)
    ensures at != 0 ==> NulFollows(buf, at)
    ensures ReadField(buf, at).GetOr("") == Text(s.GetOr([]))
  {
    if s.Some? {
      CStrAtPlaced(buf, at, s.value);
    }
  }

  /** A string placed inside a block placed in the buffer lies at the sum of the offsets. */
  lemma PlacedWithin(buf: seq<byte>, base: nat, block: seq<byte>, off: nat, s: seq<byte>)
    requires base + |block| <= |buf| && buf[base..base + |block|] == block
    requires off + |s| < |block| && block[off..off + |s|] == s && block[off + |s|] == 0
    ensures buf[base + off..base + off + |s|] == s && buf[base + off + |s|] == 0
  {
    forall i | base + off <= i < base + off + |s|
      ensures buf[i] == s[i - base - off]
    {
      assert buf[i] == buf[base..base + |block|][i - base];
    }
    assert buf[base + off + |s|] == buf[base..base + |block|][off + |s|];
  }

  /** The header of an encoded descriptor holds the two offsets and the bus code. */
  lemma EncodedHeader(vendor: Option<seq<byte>>, product: Option<seq<byte>>, bus: byte)
    requires Fits(vendor, product)
    ensures var buf := EncodeDescriptor(vendor, product, bus);
      && LeU32(buf, VendorIdOffsetAt) == VendorPos(vendor)
      && LeU32(buf, ProductIdOffsetAt) == ProductPos(vendor, product)
      && buf[BusTypeAt] == bus
      && buf[DescriptorHeaderSize..DescriptorHeaderSize + |Terminated(vendor) + Terminated(product)|]
         == Terminated(vendor) + Terminated(product)
  {
    var buf := EncodeDescriptor(vendor, product, bus);
    assert buf[12..16] == U32Le(VendorPos(vendor));
    assert buf[16..20] == U32Le(ProductPos(vendor, product));
    U32LeRoundTrip(VendorPos(vendor), buf, VendorIdOffsetAt);
    U32LeRoundTrip(ProductPos(vendor, product), buf, ProductIdOffsetAt);
  }

  /** Where an encoded descriptor puts each present string: at its offset, NUL after it. */
  predicate PlacedAt(buf: seq<byte>, at: nat, s: Option<seq<byte>>) {
    && at < 0x1_0000_0000
    && (s.None? ==> at == 0)
    && (s.Some? ==> && NulFree(s.value) && 0 < at && at + |s.value| < |buf|
                    && buf[at..at + |s.value|] == s.value && buf[at + |s.value|] == 0)
  }

  /** The vendor id of an encoded descriptor sits at its offset, NUL after it. */
  lemma VendorPlaced(vendor: Option<seq<byte>>, product: Option<seq<byte>>, bus: byte)
    requires Fits(vendor, product)
    requires vendor.Some? ==> NulFree(vendor.value)
    ensures PlacedAt(EncodeDescriptor(vendor, product, bus), VendorPos(vendor), vendor)
  {
    if vendor.Some? {
      var buf := EncodeDescriptor(vendor, product, bus);
      EncodedHeader(vendor, product, bus);
      PlacedWithin(buf, DescriptorHeaderSize, Terminated(vendor) + Terminated(product), 0, vendor.value);
    }
  }

  /** A string terminated after a prefix lies right after that prefix, NUL after it. */
  lemma TerminatedAfter(prefix: seq<byte>, s: seq<byte>)
    ensures var block := prefix + (s + [0]);
      block[|prefix|..|prefix| + |s|] == s && block[|prefix| + |s|] == 0
  {
  }

  /** The product id of an encoded descriptor sits at its offset, NUL after it. */
  lemma ProductPlaced(vendor: Option<seq<byte>>, product: Option<seq<byte>>, bus: byte)
    requires Fits(vendor, product)
    requires product.Some? ==> NulFree(product.value)
    ensures PlacedAt(EncodeDescriptor(vendor, product, bus), ProductPos(vendor, product), product)
  {
    if product.Some? {
      var buf := EncodeDescriptor(vendor, product, bus);
      EncodedHeader(vendor, product, bus);
      var block := Terminated(vendor) + Terminated(product);
      TerminatedAfter(Terminated(vendor), product.value);
      PlacedWithin(buf, DescriptorHeaderSize, block, |Terminated(vendor)|, product.value);
    }
  }

  /** Decoding any buffer with that layout gives the joined texts and the code's name. */
  lemma DecodeLaidOut(buf: seq<byte>, vendor: Option<seq<byte>>, product: Option<seq<byte>>, bus: byte)
    requires |buf| == DescriptorBufferSize && buf[BusTypeAt] == bus
    requires PlacedAt(buf, LeU32(buf, VendorIdOffsetAt), vendor)
    requires PlacedAt(buf, LeU32(buf, ProductIdOffsetAt), product)
    ensures WellFormedDescriptor(buf)
    ensures DecodeDescriptor(buf)
         == DriveIdentity(Text(vendor.GetOr([])) + " " + Text(product.GetOr([])), BusTypeName(bus))
  {
    FieldPlaced(buf, LeU32(buf, VendorIdOffsetAt), vendor);
    FieldPlaced(buf, LeU32(buf, ProductIdOffsetAt), product);
  }

  /**
   * Round trip: decoding a descriptor built from a vendor id, a product id
   * and a bus code gives "vendor product" and that code's name; an absent
   * id gives an empty segment.
   */
  lemma DecodeEncode(vendor: Option<seq<byte>>, product: Option<seq<byte>>, bus: byte)
    requires Fits(vendor, product)
    requires vendor.Some? ==> NulFree(vendor.value)
    requires product.Some? ==> NulFree(product.value)
    ensures WellFormedDescriptor(EncodeDescriptor(vendor, product, bus))
    ensures DecodeDescriptor(EncodeDescriptor(vendor, product, bus))
         == DriveIdentity(Text(vendor.GetOr([])) + " " + Text(product.GetOr([])), BusTypeName(bus))
  {
    EncodedHeader(vendor, product, bus);
    VendorPlaced(vendor, product, bus);
    ProductPlaced(vendor, product, bus);
    DecodeLaidOut(EncodeDescriptor(vendor, product, bus), vendor, product, bus);
  }
}
