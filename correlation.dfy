/**
 * Volume-to-disk correlation (`get_logical_drives_on_physical_drive`): walk
 * the drive-letter mask from A to Z and keep the volume path `\\.\X:` of
 * every present volume that has a disk extent on the given physical drive.
 *
 * The drive-letter mask query, the volume opens and the disk-extents queries
 * are not modelled as calls: the mask is an input, and so is the reply of
 * each letter's volume.
 */
module Correlation {
  import opened Wrappers
  import opened Ints

  /** Letters 'A'..='Z'. */
  const LetterCount: nat := 26

  /** Declared length of `VOLUME_DISK_EXTENTS::Extents` (`[DISK_EXTENT; 1]`). */
  const DeclaredExtents: nat := 1

  datatype DiskExtent = DiskExtent(diskNumber: u32, startingOffset: i64, extentLength: u64)

  /** What the open and the disk-extents query of one volume gave back. */
  datatype ExtentsReply =
    | OpenFailed                          // CreateFileW returned INVALID_HANDLE_VALUE
    | QueryFailed                         // DeviceIoControl returned 0
    | Extents(extents: seq<DiskExtent>)   // the first `NumberOfDiskExtents` extents

  /** A host: the drive-letter mask, and the reply of each letter's volume. */
  predicate WellFormedVolumes(volumes: seq<ExtentsReply>) {
    |volumes| == LetterCount
  }

  // ---------------------------------------------------------------------
  // Letters and paths

  function Letter(k: nat): (c: char)
    requires k < LetterCount
    ensures 'A' <= c <= 'Z' && c as int - 'A' as int == k
  {
    ('A' as int + k) as char
  }

  /** `format!("\\\\.\\{}:", letter)`. */
  function VolumePath(k: nat): (p: string)
    requires k < LetterCount
    ensures |p| == 6 && p[4] == Letter(k)
  {
    "\\\\.\\" + [Letter(k)] + ":"
  }

  /** The letter position a volume path names. */
  function LetterIndex(p: string): int
    requires |p| == 6
  {
    p[4] as int - 'A' as int
  }

  // ---------------------------------------------------------------------
  // The mask

  /** The mask after `k` steps of `drives_mask >>= 1`. */
  function Shifted(mask: nat, k: nat): nat {
    if k == 0 then mask else Shifted(mask, k - 1) / 2
  }

  /** Bit `k` of the mask, as the walk sees it at letter `k`. */
  predicate MaskBit(mask: nat, k: nat) {
    Shifted(mask, k) % 2 == 1
  }

  function Pow2(k: nat): (p: nat)
    ensures p >= 1
  {
    if k == 0 then 1 else 2 * Pow2(k - 1)
  }

  lemma DivTwice(a: nat, b: nat)
    requires b >= 1
    ensures a / b / 2 == a / (2 * b)
  {
    var q, r := a / b, a % b;
    var q2, r2 := q / 2, q % 2;
    assert a == q * b + r;
    assert q == 2 * q2 + r2;
    assert a == q2 * (2 * b) + (r2 * b + r);
    assert 0 <= r2 * b + r < 2 * b;
    DivUnique(a, 2 * b, q2, r2 * b + r);
  }

  lemma DivUnique(a: nat, d: nat, q: nat, r: nat)
    requires d >= 1 && a == q * d + r && r < d
    ensures a / d == q
  {
    var q', r' := a / d, a % d;
    assert a == q' * d + r' && r' < d;
    if q' < q {
      MulAtLeast(q - q', d);
    } else if q' > q {
      MulAtLeast(q' - q, d);
    }
  }

  lemma MulAtLeast(k: nat, d: nat)
    requires k >= 1
    ensures k * d >= d
  {
    assert k * d == (k - 1) * d + d;
  }

  /** Shifting right `k` times is division by 2^k: the walk reads bit k of the mask. */
  lemma {:induction false} ShiftedIsDivision(mask: nat, k: nat)
    ensures Shifted(mask, k) == mask / Pow2(k)
  {
    if k > 0 {
      ShiftedIsDivision(mask, k - 1);
      DivTwice(mask, Pow2(k - 1));
    }
  }

  // ---------------------------------------------------------------------
  // One volume's extents

  /** Some extent of the volume lies on physical drive `index`. */
  predicate OnDisk(extents: seq<DiskExtent>, index: nat) {
    exists j :: 0 <= j < |extents| && extents[j].diskNumber == index
  }

  /**
   * The inner `for extent in 0..NumberOfDiskExtents` scan with its `break`,
   * over all reported extents.
   */
  method ExtentsOnDisk(extents: seq<DiskExtent>, index: nat) returns (found: bool)
    ensures found <==> OnDisk(extents, index)
  {
    found := false;
    for j := 0 to |extents|
      invariant forall t :: 0 <= t < j ==> extents[t].diskNumber != index
    {
      if extents[j].diskNumber == index {
        found := true;
        break;
      }
    }
  }

  /**
   * The scan as written: `Extents[extent]` indexes an array declared with one
   * element, so reaching extent 1 is an out-of-bounds panic (`None`).
   */
  method ExtentsOnDiskAsWritten(extents: seq<DiskExtent>, index: nat) returns (r: Option<bool>)
    ensures r.None? <==> |extents| > DeclaredExtents && extents[0].diskNumber != index
    ensures r.Some? ==> (r.value <==> OnDisk(extents, index))
  {
    for j := 0 to |extents|
      invariant j <= DeclaredExtents
      invariant forall t :: 0 <= t < j ==> extents[t].diskNumber != index
    {
      if j >= DeclaredExtents {
        return None;
      }
      if extents[j].diskNumber == index {
        return Some(true);
      }
    }
    return Some(false);
  }

  /**
   * A volume spanning two disks whose first extent is on disk 1 is on disk 0,
   * yet the scan as written reaches `Extents[1]` and panics.
   */
  lemma SpannedVolumeReachesSecondExtent()
    ensures var extents := [DiskExtent(1, 0, 0x10_0000), DiskExtent(0, 0, 0x10_0000)];
      && OnDisk(extents, 0)
      && |extents| > DeclaredExtents && extents[0].diskNumber != 0
  {
    var extents := [DiskExtent(1, 0, 0x10_0000), DiskExtent(0, 0, 0x10_0000)];
    assert extents[1].diskNumber == 0;
  }

  // ---------------------------------------------------------------------
  // The letter walk

  /** Letter `k` is kept: its bit is set, its volume answered, an extent is on the disk. */
  predicate Included(index: nat, mask: nat, volumes: seq<ExtentsReply>, k: nat)
    requires WellFormedVolumes(volumes) && k < LetterCount
  {
    MaskBit(mask, k) && volumes[k].Extents? && OnDisk(volumes[k].extents, index)
  }

  /** The paths the walk has collected after letters 0..n-1. */
  function Correlated(index: nat, mask: nat, volumes: seq<ExtentsReply>, n: nat): seq<string>
    requires WellFormedVolumes(volumes) && n <= LetterCount
  {
    if n == 0 then []
    else Correlated(index, mask, volumes, n - 1)
         + (if Included(index, mask, volumes, n - 1) then [VolumePath(n - 1)] else [])
  }

  /** An empty mask has no set bit, so the walk collects nothing. */
  lemma {:induction false} EmptyMaskNothing(index: nat, volumes: seq<ExtentsReply>, n: nat)
    requires WellFormedVolumes(volumes) && n <= LetterCount
    ensures Correlated(index, 0, volumes, n) == []
  {
    if n > 0 {
      EmptyMaskNothing(index, volumes, n - 1);
      ZeroShiftsToZero(n - 1);
    }
  }

  lemma {:induction false} ZeroShiftsToZero(k: nat)
    ensures Shifted(0, k) == 0
  {
    if k > 0 {
      ZeroShiftsToZero(k - 1);
    }
  }

  /**
   * Every collected path is `\\.\X:` for a kept letter below `n`, and the
   * letters strictly increase along the list.
   */
  lemma {:induction false} CorrelatedShape(index: nat, mask: nat, volumes: seq<ExtentsReply>, n: nat)
    requires WellFormedVolumes(volumes) && n <= LetterCount
    ensures forall i :: 0 <= i < |Correlated(index, mask, volumes, n)| ==>
              var p := Correlated(index, mask, volumes, n)[i];
              |p| == 6 && 0 <= LetterIndex(p) < n && p == VolumePath(LetterIndex(p))
              && Included(index, mask, volumes, LetterIndex(p))
    ensures forall i, j :: 0 <= i < j < |Correlated(index, mask, volumes, n)| ==>
              Correlated(index, mask, volumes, n)[i][4] < Correlated(index, mask, volumes, n)[j][4]
  {
    if n > 0 {
      CorrelatedShape(index, mask, volumes, n - 1);
    }
  }

  /** A kept letter below `n` is collected. */
  lemma {:induction false} IncludedCollected(index: nat, mask: nat, volumes: seq<ExtentsReply>, n: nat, k: nat)
    requires WellFormedVolumes(volumes) && k < n <= LetterCount
    requires Included(index, mask, volumes, k)
    ensures VolumePath(k) in Correlated(index, mask, volumes, n)
  {
    if k < n - 1 {
      IncludedCollected(index, mask, volumes, n - 1, k);
    }
  }

  /**
   * The walk over all letters keeps `\\.\X:` exactly when X's bit is set,
   * the volume opened, its extent query succeeded and some extent lies on
   * drive `index`; each kept path occurs once, in increasing letter order.
   */
  lemma CorrelationExact(index: nat, mask: nat, volumes: seq<ExtentsReply>, k: nat)
    requires WellFormedVolumes(volumes) && k < LetterCount
    ensures VolumePath(k) in Correlated(index, mask, volumes, LetterCount)
            <==> Included(index, mask, volumes, k)
    ensures forall i, j :: 0 <= i < j < |Correlated(index, mask, volumes, LetterCount)| ==>
              Correlated(index, mask, volumes, LetterCount)[i] != Correlated(index, mask, volumes, LetterCount)[j]
  {
    var r := Correlated(index, mask, volumes, LetterCount);
    CorrelatedShape(index, mask, volumes, LetterCount);
    if Included(index, mask, volumes, k) {
      IncludedCollected(index, mask, volumes, LetterCount, k);
    }
    if VolumePath(k) in r {
      var i :| 0 <= i < |r| && r[i] == VolumePath(k);
      assert LetterIndex(r[i]) == k;
    }
  }

  /**
   * `get_logical_drives_on_physical_drive`: the volume paths on drive
   * `index`, for a drive-letter mask and the replies of the letters' volumes.
   */
  method LogicalDrivesOnPhysicalDrive(index: nat, mask: u32, volumes: seq<ExtentsReply>)
    returns (paths: seq<string>)
    requires WellFormedVolumes(volumes)
    ensures paths == Correlated(index, mask, volumes, LetterCount)
    ensures mask == 0 ==> paths == []
  {
    paths := [];
    var m: nat := mask;
    if m == 0 {
      // GetLogicalDrives failed: nothing is reported.
      EmptyMaskNothing(index, volumes, LetterCount);
      return;
    }
    for k := 0 to LetterCount
      invariant m == Shifted(mask, k)
      invariant paths == Correlated(index, mask, volumes, k)
    {
      if m % 2 == 1 {
        var reply := volumes[k];
        if reply.Extents? {
          var found := ExtentsOnDisk(reply.extents, index);
          if found {
            paths := paths + [VolumePath(k)];
          }
        }
      }
      m := m / 2;
    }
  }
}
