/**
 * Drive enumeration at application start (`HDDApp::default`): identity
 * queries for indices 0, 1, 2, ... until the first one that yields nothing.
 *
 * A host is described by the property replies of its drive indices
 * 0..|host|-1; every index from |host| on answers like a drive that does
 * not exist (the open fails).
 */
module Enumeration {
  import opened Wrappers
  import opened Identity
  import Partitions

  /** The reply of drive index `i` on `host`. */
  function ReplyAt(host: seq<PropertyReply>, i: nat): (r: PropertyReply)
    ensures i >= |host| ==> r == OpenFailed
    ensures i < |host| ==> r == host[i]
  {
    if i < |host| then host[i] else OpenFailed
  }

  /** Every index below `n` answered its property query. */
  predicate AnsweredBefore(host: seq<PropertyReply>, n: nat) {
    forall j :: 0 <= j < n ==> ReplyAt(host, j).Answered?
  }

  /**
   * The replies the loop decodes can be decoded: each reply whose
   * predecessors all answered. Replies past the first gap are never read and
   * may be anything.
   */
  predicate WellFormedHost(host: seq<PropertyReply>) {
    forall i :: 0 <= i < |host| && AnsweredBefore(host, i) ==> WellFormedReply(host[i])
  }

  /** Replies after a failed first query are never decoded, so they may be anything. */
  lemma MalformedAfterGapAccepted(rest: seq<PropertyReply>)
    ensures WellFormedHost([QueryFailed] + rest)
  {
    assert !ReplyAt([QueryFailed] + rest, 0).Answered?;
  }

  /** `drives` holds the identities of the first |drives| indices, each of which answered. */
  predicate Listed(host: seq<PropertyReply>, drives: seq<DriveIdentity>) {
    && AnsweredBefore(host, |drives|)
    && forall k :: 0 <= k < |drives| ==>
         WellFormedReply(ReplyAt(host, k)) && DriveModelAndType(ReplyAt(host, k)) == Some(drives[k])
  }

  /** The next index's identity extends the list. */
  lemma ListedStep(host: seq<PropertyReply>, drives: seq<DriveIdentity>, d: DriveIdentity)
    requires Listed(host, drives)
    requires WellFormedReply(ReplyAt(host, |drives|)) && DriveModelAndType(ReplyAt(host, |drives|)) == Some(d)
    ensures Listed(host, drives + [d])
  {
    var next := drives + [d];
    forall k | 0 <= k < |next|
      ensures WellFormedReply(ReplyAt(host, k)) && DriveModelAndType(ReplyAt(host, k)) == Some(next[k])
    {
      if k < |drives| {
        assert next[k] == drives[k];
      }
    }
  }

  /**
   * The `for i in 0..` loop: the result holds the identities of indices
   * 0..n-1 in index order, where n is the first index whose query yields
   * `None`.
   */
  method EnumerateDrives(host: seq<PropertyReply>) returns (drives: seq<DriveIdentity>)
    requires WellFormedHost(host)
    ensures |drives| <= |host| && AnsweredBefore(host, |drives|)
    ensures forall i :: 0 <= i < |drives| ==>
              WellFormedReply(ReplyAt(host, i)) && DriveModelAndType(ReplyAt(host, i)) == Some(drives[i])
    ensures WellFormedReply(ReplyAt(host, |drives|)) && DriveModelAndType(ReplyAt(host, |drives|)) == None
  {
    drives := [];
    var i := 0;
    while true
      invariant i == |drives| <= |host|
      invariant Listed(host, drives)
      decreases |host| - i
    {
      var reply := ReplyAt(host, i);
      var identity := DriveModelAndType(reply);
      if identity.Some? {
        ListedStep(host, drives, identity.value);
        drives := drives + [identity.value];
        i := i + 1;
      } else {
        break;
      }
    }
  }

  /**
   * No index at or beyond the first gap is reported: if index `g` yields
   * `None`, any list meeting `EnumerateDrives`'s contract is shorter than `g + 1`.
   */
  lemma StopsAtFirstGap(host: seq<PropertyReply>, drives: seq<DriveIdentity>, g: nat)
    requires forall i :: 0 <= i < |drives| ==>
               WellFormedReply(ReplyAt(host, i)) && DriveModelAndType(ReplyAt(host, i)) == Some(drives[i])
    requires WellFormedReply(ReplyAt(host, g)) && DriveModelAndType(ReplyAt(host, g)) == None
    ensures |drives| <= g
    ensures ReplyAt(host, g).OpenFailed? || ReplyAt(host, g).QueryFailed?
  {
  }

  /**
   * The application state built at start. Only the drive list is filled in;
   * the selection fields start empty and are changed by the user interface,
   * which is not part of this model.
   */
  class HddApp {
    var drives: seq<DriveIdentity>
    var selectedDrive: Option<nat>
    var logicalDrivesOnPhysical: seq<string>
    var selectedLogicalDrive: Option<string>
    var partitionsInfo: seq<Partitions.Partition>

    /** `HDDApp::default`: enumerate the drives, select nothing. */
    constructor Default(host: seq<PropertyReply>)
      requires WellFormedHost(host)
      ensures forall i :: 0 <= i < |drives| ==>
                WellFormedReply(ReplyAt(host, i)) && DriveModelAndType(ReplyAt(host, i)) == Some(drives[i])
      ensures WellFormedReply(ReplyAt(host, |drives|)) && DriveModelAndType(ReplyAt(host, |drives|)) == None
      ensures selectedDrive == None && selectedLogicalDrive == None
      ensures logicalDrivesOnPhysical == [] && partitionsInfo == []
    {
      var found := EnumerateDrives(host);
      drives := found;
      selectedDrive := None;
      logicalDrivesOnPhysical := [];
      selectedLogicalDrive := None;
      partitionsInfo := [];
    }
  }
}
