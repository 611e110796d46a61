# Disk topology decoding, modelled in Dafny

The program is a small Windows disk-topology viewer. It lists the physical
drives with their model string and bus type. For a selected drive it shows
the partition list and the volumes (drive letters) that live on that drive.
This project models the logic the program wraps around its Win32 device
queries and proves properties of it:

- **Identity decoding** (`identity.dfy`, module `Identity`). The storage-device
  descriptor is a 1024-byte reply. The vendor-id and product-id offsets are
  little-endian `u32` fields at bytes 12 and 16. Each names a NUL-terminated
  string in the same buffer, and offset 0 means the field is absent. The bus
  code is the byte at 28 and is named by a fixed table. The model string is
  vendor, a space, then product. An encoder builds a descriptor from a vendor
  id, a product id and a bus code, and decoding that descriptor gives back
  "vendor product" and the code's name.
- **Drive enumeration** (`enumeration.dfy`, module `Enumeration`). Indices
  0, 1, 2, … are queried until the first one that yields nothing. The class
  `HddApp` holds the application state that `HDDApp::default` builds.
- **Partition list** (`partitions.dfy`, module `Partitions`). There is one row
  per layout entry, in device order. Each row has the entry's length,
  the label "Partition k" (k from 1) and a style name.
- **Volume correlation** (`correlation.dfy`, module `Correlation`). The walk
  goes over the drive-letter mask from A to Z, shifting it right once per
  letter. It keeps `\\.\X:` when that volume has a disk extent on the
  given drive.
- **Multi-string splitter** (`drive_strings.dfy`, module `DriveStrings`). It
  cuts the packed NUL-terminated UTF-16 drive strings into single strings.
  The program defines this function but never calls it.

Each Win32 call (`CreateFileW`, `DeviceIoControl`, `GetLogicalDrives`,
`GetLogicalDriveStringsW`) becomes an input. That input is either a failure
(`OpenFailed`, `QueryFailed`) or the data the call returned. Fixed-width
integers are integer ranges (`ints.dfy`), and `Option` lives in
`wrappers.dfy`.

The bus-type names are the code's literal strings ("1394", "Fibre",
"VIRTUAL", "Spaces", "BusTypeMaxReserved" for 0x7F), not the enumerator
names of the Windows `STORAGE_BUS_TYPE` enumeration. The partition-style
match is modelled twice: as written, where every code reads "GPT"
(`Partitions.StyleLabelAsWritten`), and as evidently intended
(`Partitions.StyleLabel`). The partition list uses the intended names (see
Findings and Left out).

## Model

| member | source | states |
|---|---|---|
| Ints.I64AsU64 | src/main.rs:448 | `as u64` on a partition length gives a `u64` congruent to the length modulo 2^64 |
| Ints.I64AsU64Unique | src/main.rs:448 | no other `u64` is congruent to the length, so the cast is exactly the two's-complement reinterpretation |
| Identity.LeU32 | src/main.rs:117-125 | the offset fields are read little-endian: the field's first byte is its value modulo 256 and its fourth byte its top byte |
| Identity.U32LeRoundTrip | src/main.rs:24-39 | the little-endian `u32` read from the descriptor's bytes is the number those four bytes were written from |
| Identity.CStrAt | src/main.rs:119-120 | the string read at an offset stops at the first NUL at or after it: a NUL follows it inside the buffer, it is exactly the buffer's bytes from the offset, and it holds no NUL |
| Identity.ReadField | src/main.rs:117-132 | a field is absent exactly when its offset is 0; otherwise its characters are the buffer's non-NUL bytes from the offset up to a NUL |
| Identity.BusTypeName | src/main.rs:133-154 | the name is "UNKNOWN" exactly for codes outside 0x01-0x12 and 0x7F |
| Identity.BusCodeOf | src/main.rs:133-154 | reading the table from name to code only ever gives a named code |
| Identity.BusNamesRoundTripStorage | src/main.rs:134-138 | the names of codes 0x01-0x05 map back to their codes |
| Identity.BusNamesRoundTripPeripheral | src/main.rs:139-143 | the names of codes 0x06-0x0A map back to their codes |
| Identity.BusNamesRoundTripSerial | src/main.rs:144-148 | the names of codes 0x0B-0x0F map back to their codes |
| Identity.BusNamesRoundTripRecent | src/main.rs:149-152 | the names of codes 0x10-0x12 and 0x7F map back to their codes |
| Identity.BusTypeNameRoundTrip | src/main.rs:133-154 | each named code's name maps back to that code, so no two named codes share a name; every other code's name maps back to nothing |
| Identity.ModelString | src/main.rs:156 | the model is the vendor text, one space, then the product text; an absent field is an empty segment and the space is always there |
| Identity.DecodeDescriptor | src/main.rs:116-156 | the bus type is the table name of byte 28; the model is never empty; a zero vendor offset makes it start with the space, and a zero product offset makes it end with the space |
| Identity.DriveModelAndType | src/main.rs:76-157 | the result is `None` exactly when the open or the property query failed; otherwise its bus type is the name of the reply's bus code |
| Identity.EncodeDescriptor | src/main.rs:24-39 | a descriptor built from the header fields and the strings is 1024 bytes long |
| Identity.EncodedHeader | src/main.rs:24-39 | an encoded descriptor has the vendor offset at byte 12, the product offset at byte 16, the bus code at byte 28, and the strings after the 40-byte header |
| Identity.CStrAtPlaced | src/main.rs:119-120 | a NUL-free string placed at an offset and followed by a NUL reads back as itself |
| Identity.DecodeLaidOut | src/main.rs:116-156 | any buffer holding each present string at its offset decodes to "vendor product" and the name of its bus code |
| Identity.DecodeEncode | src/main.rs:116-156 | round trip: decoding the encoding of a vendor id, a product id and a bus code gives "vendor product" and that code's name, with an empty segment for an absent id |
| Enumeration.EnumerateDrives | src/main.rs:254-261 | the list holds the identities of indices 0..n-1 in index order, every one of those indices answered, and index n yields `None`; replies past index n are never read and need not be well formed |
| Enumeration.MalformedAfterGapAccepted | src/main.rs:255-261 | a host whose first query fails may have any replies after it, since the loop never decodes them |
| Enumeration.StopsAtFirstGap | src/main.rs:255-261 | no index at or past a `None` index is listed, and a `None` index is one whose open or query failed |
| Enumeration.HddApp.Default | src/main.rs:252-272 | the application starts with the enumerated drives and with no drive, volume list, volume or partitions selected |
| Partitions.Decimal | src/main.rs:455 | the numeral of an ordinal is a non-empty string of digits with no leading zero |
| Partitions.DecimalRoundTrip | src/main.rs:455 | reading the numeral back gives the number it was written from |
| Partitions.ParsePartitionLabel | src/main.rs:455 | only a text starting with "Partition " carries an ordinal |
| Partitions.LabelRoundTrip | src/main.rs:455 | the label "Partition k" parses back to k |
| Partitions.LabelsDistinct | src/main.rs:455 | distinct ordinals give distinct labels |
| Partitions.PartitionLabel | src/main.rs:455 | the label is "Partition " followed by the decimal digits of the ordinal, with no leading zero |
| Partitions.StyleLabel | src/main.rs:450-454 | the intended style name: "MBR" exactly for the MBR code, "GPT" exactly for the GPT code, "Unknown" exactly for any other code |
| Partitions.StyleLabelAsWritten | src/main.rs:450-454 | as written, every style code reads "GPT", the name the intended mapping gives only the GPT code |
| Partitions.StyleAsWrittenAlwaysGpt | src/main.rs:450-454 | as written, every style code reads "GPT", and neither "MBR" nor "Unknown" is ever produced |
| Partitions.StyleAsWrittenMislabels | src/main.rs:450-454 | as written, an MBR entry and a RAW entry both read "GPT", which differs from the intended name |
| Partitions.PartitionRow | src/main.rs:447-456 | the row pushed for entry i holds the entry's length as `u64`, the label "Partition i+1", which parses back to i + 1, and the intended style name |
| Partitions.PartitionsOnPhysicalDrive | src/main.rs:444-457 | empty when the open or the layout query fails; otherwise one row per entry in device order, with row i holding the entry's length as `u64`, the intended style name, and exactly the label "Partition i+1", which parses back to i + 1 (so the labels are 1..N) |
| Correlation.Letter | src/main.rs:194 | position k of the walk is the letter 'A' + k |
| Correlation.VolumePath | src/main.rs:196 | the volume path is six characters, with the letter at position 4 |
| Correlation.ShiftedIsDivision | src/main.rs:237 | after k right shifts the mask is the original divided by 2^k, so at letter k the walk tests bit k |
| Correlation.ExtentsOnDisk | src/main.rs:226-232 | the scan with its `break` finds a match exactly when some reported extent is on the drive |
| Correlation.ExtentsOnDiskAsWritten | src/main.rs:227 | as written, the scan panics exactly when there is more than one extent and the first is not on the drive; when it does not panic, its answer is the right one |
| Correlation.SpannedVolumeReachesSecondExtent | src/main.rs:44 | a volume whose second extent is on disk 0 and whose first is on disk 1 is on disk 0, yet the scan as written reaches `Extents[1]` |
| Correlation.EmptyMaskNothing | src/main.rs:188-192 | an empty mask yields no paths |
| Correlation.CorrelatedShape | src/main.rs:194-238 | every collected path is `\\.\X:` for a kept letter, and the letters strictly increase along the list |
| Correlation.IncludedCollected | src/main.rs:224-231 | a letter whose bit is set, whose volume answered and that has an extent on the drive is collected |
| Correlation.CorrelationExact | src/main.rs:194-238 | `\\.\X:` is in the result exactly when X's bit is set, its volume opened, its extent query succeeded and some extent is on the drive; no path occurs twice |
| Correlation.LogicalDrivesOnPhysicalDrive | src/main.rs:185-240 | the loop yields the walk over all 26 letters, and yields nothing for mask 0 |
| DriveStrings.NulIn | src/main.rs:173 | a NUL found in a window lies inside that window |
| DriveStrings.NulInSpec | src/main.rs:173 | the search finds the first NUL of the window, and finds none only when the window holds no NUL |
| DriveStrings.EndAsWritten | src/main.rs:173 | `end` is the position of the first NUL at or after `start`, counted from `start`: `start + end` holds a NUL and nothing between `start` and it does; with no NUL it is the buffer length |
| DriveStrings.LogicalDriveStringsAsWritten | src/main.rs:159-183 | the loop as written, with the relative `end` compared and sliced as absolute, gives the as-written outcome; for length 0 it emits nothing |
| DriveStrings.AsWrittenInBounds | src/main.rs:172-175 | when the length fits inside the buffer and a NUL sits at that length, the loop as written never slices out of bounds |
| DriveStrings.AsWrittenLosesSecondDrive | src/main.rs:173-175 | for the reply "A:\", "C:\", the loop as written emits only the first string (the slice it takes keeps the NUL), whereas the reply holds two strings |
| DriveStrings.FieldsInProper | src/main.rs:172-181 | every string the intended split yields is non-empty and NUL-free |
| DriveStrings.FieldsInJoin | src/main.rs:172-181 | non-empty NUL-free strings packed at any position split back into themselves |
| DriveStrings.FieldsJoin | src/main.rs:172-181 | round trip: packing non-empty NUL-free strings with their NULs and splitting them gives them back |
| DriveStrings.LogicalDriveStrings | src/main.rs:159-183 | the corrected loop yields exactly the NUL-delimited strings of the reply's first `len` units, each non-empty and NUL-free |

## Left out

- The Win32 calls themselves are not modelled as calls. `CreateFileW`, `DeviceIoControl`, `GetLogicalDrives`, `GetLogicalDriveStringsW` and `GetLastError` are foreign code: their outcomes are inputs, and handles and pointer casts do not appear.
- `CloseHandle` is left out: it releases a handle and has no effect on any result.
- `get_drive_geometry` (src/main.rs:54-74) is left out: it is a single foreign call with no logic of its own.
- `get_free_space` (src/main.rs:373-406) is left out: it is floating-point division into GiB.
- The user interface is left out. This covers `update` (src/main.rs:276-370), `draw_partitions_bar` (src/main.rs:465-542), the `get_partition_colors` table (src/main.rs:544-551) and `main` (src/main.rs:553-566). These are presentation and event handling.
- The `Arc<Mutex<…>>` around the drive list is left out: nothing shares the list concurrently in the modelled code.
- Identity.ReadField: `CStr::to_string_lossy` decodes UTF-8 with replacement characters, whereas the model reads each byte as one character. Encodings are outside the model.
- Identity.WellFormedDescriptor: the model requires a NUL at or after each non-zero offset inside the 1024-byte buffer. The source reads raw memory there and would run past the buffer without one.
- Identity.DriveModelAndType: the formatting of the device path and `U16CString::from_str` are not modelled. That conversion cannot fail on the ASCII path the program formats.
- Enumeration.EnumerateDrives: a host is finite, and every index past its replies fails to open. The source's unbounded `for i in 0..` and the wrap-around of `usize` are not modelled.
- Enumeration.HddApp.Default: the `geometry` and `drive_space_info` fields are left out, because their producers (geometry query, free space) are left out.
- Partitions.PartitionRow: the style field is the corrected name (`StyleLabel`); as written every row reads "GPT" (`StyleLabelAsWritten`, see Findings).
- Partitions.PartitionsOnPhysicalDrive: rows carry the corrected style name (`StyleLabel`); as written every row reads "GPT" (`StyleLabelAsWritten`, see Findings).
- Partitions.PartitionsOnPhysicalDrive: the colour column is left out, because it comes from the presentational colour table.
- Partitions.PartitionsOnPhysicalDrive: the capacity of the 128-entry layout buffer is left out. A drive with more entries makes the query fail, which is the `QueryFailed` input.
- Correlation.LogicalDrivesOnPhysicalDrive: the 26-extent capacity of the extents buffer is left out. An overflowing reply makes the query fail, which is the `QueryFailed` input.
- Correlation.LogicalDrivesOnPhysicalDrive: the scan is the corrected one from Findings. The as-written scan is modelled separately.
- DriveStrings.LogicalDriveStringsAsWritten: `U16CString::from_vec_unchecked` and `to_string_lossy` are not modelled. The emitted items are the UTF-16 slices the loop takes, including the NUL that `start..=end` keeps.

## Findings

| source | as written | input that shows it | evidently intended | confidence | as-written member | corrected member |
|---|---|---|---|---|---|---|
| src/main.rs:450-454 | `PARTITION_STYLE_MBR` is not imported (src/main.rs:20), so the first arm binds any code and every partition reads "GPT". Even with the constants imported, the arms would map MBR to "GPT" and GPT to "MBR" | an MBR entry (style code 0), or a RAW entry (code 2) | MBR code shown as "MBR", GPT code as "GPT", any other code as "Unknown" | not executed | Partitions.StyleAsWrittenMislabels | Partitions.StyleLabel |
| src/main.rs:44, src/main.rs:227 | `Extents` is declared `[DISK_EXTENT; 1]`, so `Extents[extent]` panics once the scan reaches extent 1 | a volume with two extents, the first on disk 1 and the second on disk 0, scanned for disk 0 | every reported extent is examined, so the volume is found on disk 0 | not executed | Correlation.ExtentsOnDiskAsWritten | Correlation.ExtentsOnDisk |
| src/main.rs:173-175 | `end` is the NUL position relative to `start`, but it is compared with `start` and sliced as an absolute index, so after the first string later strings are skipped or mis-sliced | the reply "A:\", "C:\" (length 8) | each NUL-delimited string of the reply is emitted once | not executed | DriveStrings.AsWrittenLosesSecondDrive | DriveStrings.LogicalDriveStrings |
