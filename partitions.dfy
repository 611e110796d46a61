/**
 * Partition list of a physical drive (`get_partitions_on_physical_drive`):
 * one row per entry of the drive-layout reply, in the device's order, with
 * the entry's length, the label "Partition k" (k counted from 1) and a
 * partition-style name.
 *
 * The open and the drive-layout query are not modelled as calls: their
 * outcome is the input `LayoutReply`.
 */
module Partitions {
  import opened Wrappers
  import opened Ints

  /** `PARTITION_STYLE` codes of the Win32 layout records. */
  const PartitionStyleMbr: u32 := 0
  const PartitionStyleGpt: u32 := 1
  const PartitionStyleRaw: u32 := 2

  /** The fields of one `PARTITION_INFORMATION_EX` the source reads. */
  datatype PartitionEntry = PartitionEntry(style: u32, length: i64)

  /** What the open and the drive-layout query gave back. */
  datatype LayoutReply =
    | OpenFailed                               // CreateFileW returned INVALID_HANDLE_VALUE
    | QueryFailed                              // DeviceIoControl returned 0
    | Layout(entries: seq<PartitionEntry>)     // the first `PartitionCount` entries

  /** One row of the result: size in bytes, label, style name. */
  datatype Partition = Partition(size: u64, name: string, style: string)

  // ---------------------------------------------------------------------
  // Decimal numerals, for the labels

  predicate IsDigit(c: char) {
    '0' <= c <= '9'
  }

  predicate AllDigits(s: string) {
    forall i :: 0 <= i < |s| ==> IsDigit(s[i])
  }

  function DigitChar(d: nat): (c: char)
    requires d < 10
    ensures IsDigit(c) && c as int - '0' as int == d
  {
    ('0' as int + d) as char
  }

  /** `format!("{}", n)`: the decimal numeral of `n`, without leading zeros. */
  function Decimal(n: nat): (s: string)
    ensures |s| >= 1 && AllDigits(s)
    ensures |s| > 1 ==> s[0] != '0'
    decreases n
  {
    if n < 10 then [DigitChar(n)] else Decimal(n / 10) + [DigitChar(n % 10)]
  }

  /** The number a string of digits denotes. */
  function DecimalValue(s: string): nat
    requires AllDigits(s)
  {
    if s == [] then 0
    else DecimalValue(s[..|s| - 1]) * 10 + (s[|s| - 1] as int - '0' as int)
  }

  /** Reading a numeral back gives the number it was written from. */
  lemma {:induction false} DecimalRoundTrip(n: nat)
    ensures DecimalValue(Decimal(n)) == n
    decreases n
  {
    var s := Decimal(n);
    if n >= 10 {
      DecimalRoundTrip(n / 10);
      assert s[..|s| - 1] == Decimal(n / 10);
    }
  }

  // ---------------------------------------------------------------------
  // Labels

  const LabelPrefix: string := "Partition "

  /** `format!("Partition {}", k)`: the prefix, then the numeral with no leading zero. */
  function PartitionLabel(k: nat): (text: string)
    ensures |text| > |LabelPrefix| && text[..|LabelPrefix|] == LabelPrefix
    ensures AllDigits(text[|LabelPrefix|..])
    ensures |text| > |LabelPrefix| + 1 ==> text[|LabelPrefix|] != '0'
  {
    var numeral := Decimal(k);
    assert (LabelPrefix + numeral)[|LabelPrefix|..] == numeral;
    LabelPrefix + numeral
  }

  /** The ordinal a partition label carries, if the text has a label's shape. */
  function ParsePartitionLabel(text: string): (k: Option<nat>)
    ensures k.Some? ==> |text| > |LabelPrefix| && text[..|LabelPrefix|] == LabelPrefix
  {
    if |text| > |LabelPrefix| && text[..|LabelPrefix|] == LabelPrefix && AllDigits(text[|LabelPrefix|..])
    then Some(DecimalValue(text[|LabelPrefix|..]))
    else None
  }

  /** Every label gives back its ordinal, so distinct ordinals have distinct labels. */
  lemma LabelRoundTrip(k: nat)
    ensures ParsePartitionLabel(PartitionLabel(k)) == Some(k)
  {
    var text := PartitionLabel(k);
    assert text[|LabelPrefix|..] == Decimal(k);
    assert text[..|LabelPrefix|] == LabelPrefix;
    DecimalRoundTrip(k);
  }

  lemma LabelsDistinct(j: nat, k: nat)
    requires j != k
    ensures PartitionLabel(j) != PartitionLabel(k)
  {
    LabelRoundTrip(j);
    LabelRoundTrip(k);
  }

  // ---------------------------------------------------------------------
  // Partition style

  /**
   * The style name the match at src/main.rs:450-454 evidently intends:
   * MBR code as "MBR", GPT code as "GPT", any other code "Unknown".
   */
  function StyleLabel(style: u32): (name: string)
    ensures style == PartitionStyleMbr <==> name == "MBR"
    ensures style == PartitionStyleGpt <==> name == "GPT"
    ensures style != PartitionStyleMbr && style != PartitionStyleGpt <==> name == "Unknown"
  {
    if style == PartitionStyleMbr then "MBR"
    else if style == PartitionStyleGpt then "GPT"
    else "Unknown"
  }

  /**
   * The match as written: `PARTITION_STYLE_MBR` is not imported, so its
   * first arm is a binding that matches every code and yields "GPT".
   */
  function StyleLabelAsWritten(style: u32): (name: string)
    ensures name == StyleLabel(PartitionStyleGpt)
  {
    "GPT"
  }

  /** As written, every partition reads "GPT"; "MBR" and "Unknown" never occur. */
  lemma StyleAsWrittenAlwaysGpt(style: u32)
    ensures StyleLabelAsWritten(style) == "GPT"
    ensures StyleLabelAsWritten(style) != "MBR" && StyleLabelAsWritten(style) != "Unknown"
  {
  }

  /** An MBR partition, and a raw disk's entry, are shown as GPT as written. */
  lemma StyleAsWrittenMislabels()
    ensures StyleLabelAsWritten(PartitionStyleMbr) == "GPT" != StyleLabel(PartitionStyleMbr)
    ensures StyleLabelAsWritten(PartitionStyleRaw) == "GPT" != StyleLabel(PartitionStyleRaw)
  {
  }

  // ---------------------------------------------------------------------
  // The entry loop

  /**
   * The row the loop pushes for entry `i` (0-based) of the layout. The style
   * column uses the intended names (see `StyleLabelAsWritten` for the
   * source's catch-all arm).
   */
  function PartitionRow(entry: PartitionEntry, i: nat): (row: Partition)
    ensures row.size == I64AsU64(entry.length) && row.style == StyleLabel(entry.style)
    ensures row.name == PartitionLabel(i + 1)
    ensures ParsePartitionLabel(row.name) == Some(i + 1)
  {
    LabelRoundTrip(i + 1);
    Partition(I64AsU64(entry.length), PartitionLabel(i + 1), StyleLabel(entry.style))
  }

  /**
   * `get_partitions_on_physical_drive`: empty when the open or the query
   * fails; otherwise one row per reported entry, in device order, row i
   * carrying the entry's length, the label of ordinal i + 1 and the entry's
   * style name.
   */
  method PartitionsOnPhysicalDrive(reply: LayoutReply) returns (partitions: seq<Partition>)
    ensures !reply.Layout? ==> partitions == []
    ensures reply.Layout? ==> |partitions| == |reply.entries|
    ensures reply.Layout? ==> forall i :: 0 <= i < |partitions| ==>
              partitions[i].size == I64AsU64(reply.entries[i].length) &&
              partitions[i].style == StyleLabel(reply.entries[i].style)
    ensures forall i :: 0 <= i < |partitions| ==> partitions[i].name == PartitionLabel(i + 1)
    ensures forall i :: 0 <= i < |partitions| ==> ParsePartitionLabel(partitions[i].name) == Some(i + 1)
  {
    partitions := [];
    if reply.OpenFailed? {
      return;
    }
    if reply.Layout? {
      var entries := reply.entries;
      for i := 0 to |entries|
        invariant |partitions| == i
        invariant forall k :: 0 <= k < i ==> partitions[k] == PartitionRow(entries[k], k)
      {
        partitions := partitions + [PartitionRow(entries[i], i)];
      }
    }
  }
}
