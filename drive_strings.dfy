/**
 * The multi-string splitter (`get_logical_drives`): the root paths of the
 * mounted volumes come back from the drive-strings query as NUL-terminated
 * UTF-16 strings packed one after the other in a 256-unit buffer, and the
 * function cuts that buffer into its strings. The program never calls it.
 *
 * The query is not modelled as a call: its outcome is the filled `buffer`
 * and the returned length `len` (units written, not counting the final NUL).
 * Strings are kept as sequences of UTF-16 code units.
 */
module DriveStrings {
  import opened Wrappers
  import opened Ints

  /** Capacity of the buffer handed to the drive-strings query. */
  const BufferLength: nat := 256

  /** Every string is non-empty and NUL-free. */
  predicate ProperFields(fs: seq<seq<u16>>) {
    forall k :: 0 <= k < |fs| ==> |fs[k]| > 0 && NulFree(fs[k])
  }

  /** The position of the first NUL in `buffer[from..to]`, counted from the buffer's start. */
  function NulIn(buffer: seq<u16>, from: nat, to: nat): (r: Option<nat>)
    requires from <= to <= |buffer|
    ensures r.Some? ==> from <= r.value < to
    decreases |buffer| - from
  {
    if from == to then None
    else if buffer[from] == 0 then Some(from)
    else NulIn(buffer, from + 1, to)
  }

  /** `NulIn` finds the first NUL of the window, and finds none only when there is none. */
  lemma {:induction false} NulInSpec(buffer: seq<u16>, from: nat, to: nat)
    requires from <= to <= |buffer|
    ensures NulIn(buffer, from, to).Some? ==> var p := NulIn(buffer, from, to).value;
      buffer[p] == 0 && (forall i :: from <= i < p ==> buffer[i] != 0)
    ensures NulIn(buffer, from, to).None? ==> (forall i :: from <= i < to ==> buffer[i] != 0)
    decreases |buffer| - from
  {
    if from < to && buffer[from] != 0 {
      NulInSpec(buffer, from + 1, to);
    }
  }

  /** The first NUL of the window is at `p` when `buffer[p]` is NUL and nothing before it is. */
  lemma NulInAt(buffer: seq<u16>, from: nat, to: nat, p: nat)
    requires from <= p < to <= |buffer| && buffer[p] == 0
    requires forall i :: from <= i < p ==> buffer[i] != 0
    ensures NulIn(buffer, from, to) == Some(p)
  {
    NulInSpec(buffer, from, to);
  }

  /**
   * `buffer[start..].iter().position(|&c| c == 0).unwrap_or(buffer.len())`:
   * a position RELATIVE to `start`, or the buffer length.
   */
  function EndAsWritten(buffer: seq<u16>, start: nat): (r: nat)
    requires start <= |buffer|
    ensures NulIn(buffer, start, |buffer|).Some? ==> start + r < |buffer| && buffer[start + r] == 0
    ensures NulIn(buffer, start, |buffer|).Some? ==> forall i :: start <= i < start + r ==> buffer[i] != 0
    ensures NulIn(buffer, start, |buffer|).None? ==> r == |buffer|
  {
    NulInSpec(buffer, start, |buffer|);
    match NulIn(buffer, start, |buffer|)
    case Some(p) => p - start
    case None => |buffer|
  }

  // ---------------------------------------------------------------------
  // The loop as written

  /** Outcome of the loop as written: the emitted slices, or a slice-index panic. */
  datatype SplitOutcome = Emitted(drives: seq<seq<u16>>) | OutOfBounds

  function Prepend(item: seq<u16>, rest: SplitOutcome): SplitOutcome {
    match rest
    case Emitted(ds) => Emitted([item] + ds)
    case OutOfBounds => OutOfBounds
  }

  function AppendTo(done: seq<seq<u16>>, rest: SplitOutcome): SplitOutcome {
    match rest
    case Emitted(ds) => Emitted(done + ds)
    case OutOfBounds => OutOfBounds
  }

  /**
   * The loop as written, from position `start` on: `end` is relative to
   * `start`, yet it is compared with `start` and sliced as
   * `buffer[start..=end]` as if it were absolute.
   */
  function AsWrittenFrom(buffer: seq<u16>, len: nat, start: nat): SplitOutcome
    decreases len - start
  {
    if start >= len then Emitted([])
    else if start > |buffer| then OutOfBounds
    else
      var end := EndAsWritten(buffer, start);
      if end <= start then AsWrittenFrom(buffer, len, start + 1)
      else if end >= |buffer| then OutOfBounds
      else Prepend(buffer[start..end + 1], AsWrittenFrom(buffer, len, end + 1))
  }

  lemma AppendPrepend(done: seq<seq<u16>>, item: seq<u16>, rest: SplitOutcome)
    ensures AppendTo(done, Prepend(item, rest)) == AppendTo(done + [item], rest)
  {
    if rest.Emitted? {
      assert done + ([item] + rest.drives) == (done + [item]) + rest.drives;
    }
  }

  /**
   * `get_logical_drives` as written. `start` strictly increases on every
   * iteration (to `end + 1 > start`, or by 1), so the loop ends.
   */
  method LogicalDriveStringsAsWritten(buffer: seq<u16>, len: u32) returns (r: SplitOutcome)
    ensures r == AsWrittenFrom(buffer, len, 0)
    ensures len == 0 ==> r == Emitted([])
  {
    var drives: seq<seq<u16>> := [];
    if len == 0 {
      return Emitted(drives);
    }
    var start: nat := 0;
    while start < len
      invariant AsWrittenFrom(buffer, len, 0) == AppendTo(drives, AsWrittenFrom(buffer, len, start))
      decreases len - start
    {
      if start > |buffer| {
        return OutOfBounds;
      }
      var end := EndAsWritten(buffer, start);
      if end > start {
        if end >= |buffer| {
          return OutOfBounds;
        }
        AppendPrepend(drives, buffer[start..end + 1], AsWrittenFrom(buffer, len, end + 1));
        drives := drives + [buffer[start..end + 1]];
        start := end + 1;
      } else {
        start := start + 1;
      }
    }
    return Emitted(drives);
  }

  /**
   * The slicing stays in bounds when the reply fits the buffer and its
   * terminating NUL follows it, so a NUL lies after every `start < len`.
   */
  lemma {:induction false} AsWrittenInBounds(buffer: seq<u16>, len: nat, start: nat)
    requires len < |buffer| && buffer[len] == 0
    ensures AsWrittenFrom(buffer, len, start).Emitted?
    decreases len - start
  {
    if start < len {
      NulInSpec(buffer, start, |buffer|);
      var end := EndAsWritten(buffer, start);
      assert end < |buffer|;
      if end > start {
        AsWrittenInBounds(buffer, len, end + 1);
      } else {
        AsWrittenInBounds(buffer, len, start + 1);
      }
    }
  }

  // ---------------------------------------------------------------------
  // The evidently intended split

  /** The non-empty NUL-delimited strings of `buffer[start..n]`, in order. */
  function FieldsIn(buffer: seq<u16>, start: nat, n: nat): seq<seq<u16>>
    requires start <= n <= |buffer|
    decreases n - start
  {
    if start == n then []
    else match NulIn(buffer, start, n)
      case None => [buffer[start..n]]
      case Some(end) => (if end > start then [buffer[start..end]] else []) + FieldsIn(buffer, end + 1, n)
  }

  /** The non-empty NUL-delimited strings of `s`. */
  function Fields(s: seq<u16>): seq<seq<u16>> {
    FieldsIn(s, 0, |s|)
  }

  /** Every string the split yields is non-empty and NUL-free. */
  lemma {:induction false} FieldsInProper(buffer: seq<u16>, start: nat, n: nat)
    requires start <= n <= |buffer|
    ensures ProperFields(FieldsIn(buffer, start, n))
    decreases n - start
  {
    if start < n {
      NulInSpec(buffer, start, n);
      match NulIn(buffer, start, n)
      case None =>
      case Some(end) => FieldsInProper(buffer, end + 1, n);
    }
  }

  /** The packed form: each string followed by its NUL. */
  function Join(fs: seq<seq<u16>>): (s: seq<u16>)
    ensures |s| >= |fs|
  {
    if fs == [] then [] else fs[0] + [0] + Join(fs[1..])
  }

  /** The first packed string ends at the first NUL, and the rest follows it. */
  lemma JoinHead(buffer: seq<u16>, start: nat, fs: seq<seq<u16>>)
    requires fs != [] && |fs[0]| > 0 && NulFree(fs[0])
    requires start + |Join(fs)| <= |buffer| && buffer[start..start + |Join(fs)|] == Join(fs)
    ensures var n, f := start + |Join(fs)|, fs[0];
      && NulIn(buffer, start, n) == Some(start + |f|)
      && buffer[start..start + |f|] == f
      && buffer[start + |f| + 1..n] == Join(fs[1..])
  {
    var n := start + |Join(fs)|;
    var f := fs[0];
    var packed := Join(fs);
    assert packed == f + [0] + Join(fs[1..]);
    forall i | start <= i < start + |f| ensures buffer[i] != 0 {
      assert buffer[i] == packed[i - start] == f[i - start];
    }
    assert buffer[start + |f|] == packed[|f|] == 0;
    NulInAt(buffer, start, n, start + |f|);
    assert buffer[start..start + |f|] == packed[..|f|] == f;
    assert buffer[start + |f| + 1..n] == packed[|f| + 1..];
  }

  lemma ProperTail(fs: seq<seq<u16>>)
    requires fs != [] && ProperFields(fs)
    ensures ProperFields(fs[1..])
  {
    forall k | 0 <= k < |fs| - 1 ensures |fs[1..][k]| > 0 && NulFree(fs[1..][k]) {
      assert fs[1..][k] == fs[k + 1];
    }
  }

  /** Non-empty NUL-free strings packed at `start` split back into themselves. */
  lemma {:induction false} FieldsInJoin(buffer: seq<u16>, start: nat, fs: seq<seq<u16>>)
    requires ProperFields(fs)
    requires start + |Join(fs)| <= |buffer| && buffer[start..start + |Join(fs)|] == Join(fs)
    ensures FieldsIn(buffer, start, start + |Join(fs)|) == fs
    decreases |fs|
  {
    if fs != [] {
      JoinHead(buffer, start, fs);
      ProperTail(fs);
      FieldsInJoin(buffer, start + |fs[0]| + 1, fs[1..]);
      assert fs == [fs[0]] + fs[1..];
    }
  }

  /** Packing non-empty NUL-free strings and splitting them again gives them back. */
  lemma FieldsJoin(fs: seq<seq<u16>>)
    requires ProperFields(fs)
    ensures Fields(Join(fs)) == fs
  {
    var s := Join(fs);
    assert s[0..|s|] == s;
    FieldsInJoin(s, 0, fs);
  }

  /** "A:\", "C:\" as the query packs them: 8 units and the final NUL. */
  const TwoDrives: seq<u16> := [0x41, 0x3A, 0x5C, 0, 0x43, 0x3A, 0x5C, 0, 0]

  /**
   * As written, the second string is lost: after "A:\" the relative NUL
   * position 3 never exceeds the absolute start (4 and beyond), so nothing
   * more is emitted, whereas the reply holds two strings.
   */
  lemma AsWrittenLosesSecondDrive()
    ensures AsWrittenFrom(TwoDrives, 8, 0) == Emitted([TwoDrives[0..4]])
    ensures Fields(TwoDrives[..8]) == [TwoDrives[0..3], TwoDrives[4..7]]
  {
    var b := TwoDrives;
    assert EndAsWritten(b, 0) == 3;
    assert EndAsWritten(b, 4) == 3;
    assert EndAsWritten(b, 5) == 2;
    assert EndAsWritten(b, 6) == 1;
    assert EndAsWritten(b, 7) == 0;
    var s := b[..8];
    assert s[3] == 0 && s[7] == 0;
    NulInAt(s, 0, 8, 3);
    NulInAt(s, 4, 8, 7);
    assert s[0..3] == b[0..3] && s[4..7] == b[4..7];
    assert FieldsIn(s, 8, 8) == [];
  }

  function Min(a: nat, b: nat): nat {
    if a < b then a else b
  }

  /**
   * The splitter with the NUL position taken as absolute and the search
   * bounded by the returned length: it yields exactly the strings of the
   * reply, each non-empty and NUL-free.
   */
  method LogicalDriveStrings(buffer: seq<u16>, len: u32) returns (drives: seq<seq<u16>>)
    ensures drives == Fields(buffer[..Min(len, |buffer|)])
    ensures ProperFields(drives)
  {
    drives := [];
    var n := Min(len, |buffer|);
    var start := 0;
    while start < n
      invariant start <= n
      invariant FieldsIn(buffer, 0, n) == drives + FieldsIn(buffer, start, n)
      decreases n - start
    {
      var found := NulIn(buffer, start, n);
      if found.None? {
        drives := drives + [buffer[start..n]];
        start := n;
      } else {
        var end := found.value;
        if end > start {
          drives := drives + [buffer[start..end]];
        }
        start := end + 1;
      }
    }
    FieldsInProper(buffer, 0, n);
    FieldsPrefix(buffer, n);
  }

  /** The split of a window ending at `n` only looks at `buffer[..n]`. */
  lemma FieldsPrefix(buffer: seq<u16>, n: nat)
    requires n <= |buffer|
    ensures Fields(buffer[..n]) == FieldsIn(buffer, 0, n)
  {
    FieldsInWindow(buffer, buffer[..n], 0, n);
  }

  lemma {:induction false} FieldsInWindow(buffer: seq<u16>, prefix: seq<u16>, start: nat, n: nat)
    requires start <= n <= |buffer| && prefix == buffer[..n]
    ensures FieldsIn(prefix, start, n) == FieldsIn(buffer, start, n)
    decreases n - start
  {
    if start < n {
      NulInWindow(buffer, prefix, start, n);
      match NulIn(buffer, start, n)
      case None =>
        assert prefix[start..n] == buffer[start..n];
      case Some(end) =>
        assert prefix[start..end] == buffer[start..end];
        FieldsInWindow(buffer, prefix, end + 1, n);
    }
  }

  lemma {:induction false} NulInWindow(buffer: seq<u16>, prefix: seq<u16>, from: nat, n: nat)
    requires from <= n <= |buffer| && prefix == buffer[..n]
    ensures NulIn(prefix, from, n) == NulIn(buffer, from, n)
    decreases |buffer| - from
  {
    if from < n {
      assert prefix[from] == buffer[from];
      NulInWindow(buffer, prefix, from + 1, n);
    }
  }
}
