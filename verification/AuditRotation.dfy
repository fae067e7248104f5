/** The directory of log files: the rename loop, the age purge and the numbering they keep. */
module AuditRotation {
  import opened Wrappers

  /** A log file: its bytes and its modification time. */
  datatype LogFile = LogFile(content: seq<byte>, mtime: int)

  /** Slot 0 is audit.log, slot i is audit.log.i. */
  type Logs = map<nat, LogFile>

  const MIB := 0x10_0000
  const LAST_SLOT := 5

  /** A retention pass: whether MaxAgeDays is positive, and the cutoff computed from the clock. */
  datatype Retention = Retention(enabled: bool, cutoff: int)

  /** os.Rename: replaces the target; a missing source is an error the caller ignores. */
  function Rename(logs: Logs, source: nat, target: nat): Logs {
    if source in logs then (logs - {source})[target := logs[source]] else logs
  }

  function Purge(logs: Logs, keep: Retention): Logs {
    if keep.enabled then map i | i in logs && logs[i].mtime >= keep.cutoff :: logs[i] else logs
  }

  function Lookup(logs: Logs, slot: nat): Option<LogFile> {
    if slot in logs then Some(logs[slot]) else None
  }

  /** What the renames leave in a slot. A file in slot 5 survives when slot 4 is empty. */
  function ShiftedSlot(logs: Logs, slot: nat): Option<LogFile> {
    if slot == 0 then None
    else if slot < LAST_SLOT || (slot == LAST_SLOT && slot - 1 in logs) then Lookup(logs, slot - 1)
    else Lookup(logs, slot)
  }

  function Shifted(logs: Logs): Logs {
    map s | s in logs.Keys + {1, 2, 3, 4, 5} && ShiftedSlot(logs, s).Some? :: ShiftedSlot(logs, s).value
  }

  function MaxBytes(maxSizeMB: int): int {
    maxSizeMB * MIB
  }

  predicate NeedsRotation(logs: Logs, maxSizeMB: int) {
    0 < maxSizeMB && 0 in logs && |logs[0].content| >= MaxBytes(maxSizeMB)
  }

  /** The directory after maybeRotate. */
  function Rotated(logs: Logs, maxSizeMB: int, keep: Retention, now: int): Logs {
    if NeedsRotation(logs, maxSizeMB) then Purge(Shifted(logs), keep)[0 := LogFile([], now)] else logs
  }

  /** The audit directory: the log files and the contents of hmac.key. */
  class LogDir {
    var logs: Logs
    var keyFile: Option<seq<byte>>

    constructor ()
      ensures logs == map[] && keyFile == None
    {
      logs := map[];
      keyFile := None;
    }

    /** The renames of one rotation, from slot 4 down to slot 0. */
    method ShiftFiles()
      modifies this`logs
      ensures logs == Shifted(old(logs))
    {
      var i := 4;
      while i >= 1
        invariant 0 <= i <= 4
        invariant RenamedAbove(old(logs), logs, i)
      {
        RenameStep(old(logs), logs, i);
        logs := Rename(logs, i, i + 1);
        i := i - 1;
      }
      LastRename(old(logs), logs);
      logs := Rename(logs, 0, 1);
    }

    /** os.ReadDir, in some order. */
    method ReadDir() returns (entries: seq<nat>)
      ensures forall i :: i in entries <==> i in logs
    {
      entries := [];
      var rest := logs.Keys;
      while rest != {}
        invariant rest <= logs.Keys
        invariant forall i :: i in logs <==> i in rest || i in entries
      {
        var i :| i in rest;
        entries := entries + [i];
        rest := rest - {i};
      }
    }

    /** The age purge: every listed file older than the cutoff is removed. */
    method RemoveOld(cutoff: int)
      modifies this`logs
      ensures logs == Purge(old(logs), Retention(true, cutoff))
    {
      var entries := ReadDir();
      for n := 0 to |entries|
        invariant forall i :: i in logs ==> i in old(logs) && logs[i] == old(logs)[i]
        invariant forall i :: i in old(logs) && i !in logs ==> old(logs)[i].mtime < cutoff
        invariant forall k :: 0 <= k < n ==> (entries[k] in logs ==> logs[entries[k]].mtime >= cutoff)
      {
        var slot := entries[n];
        if slot in logs && logs[slot].mtime < cutoff {
          logs := logs - {slot};
        }
      }
      assert forall i :: i in logs ==> i in entries && logs[i].mtime >= cutoff;
    }

    method MaybeRotate(maxSizeMB: int, keep: Retention, now: int)
      requires 0 in logs
      modifies this`logs
      ensures logs == Rotated(old(logs), maxSizeMB, keep, now)
    {
      if maxSizeMB <= 0 { return; }
      var maxBytes := MaxBytes(maxSizeMB);
      if |logs[0].content| < maxBytes { return; }
      ShiftFiles();
      if keep.enabled {
        RemoveOld(keep.cutoff);
      }
      logs := logs[0 := LogFile([], now)];
    }
  }

  /** The directory when only the renames from the slots above i are done. */
  ghost predicate RenamedAbove(before: Logs, logs: Logs, i: nat) {
    forall s: nat :: Lookup(logs, s) ==
      if s <= i || i == LAST_SLOT - 1 then Lookup(before, s)
      else if s == i + 1 then None
      else ShiftedSlot(before, s)
  }

  lemma RenameStep(before: Logs, logs: Logs, i: nat)
    requires 0 < i < LAST_SLOT && RenamedAbove(before, logs, i)
    ensures RenamedAbove(before, Rename(logs, i, i + 1), i - 1)
  {
    assert Lookup(logs, i) == Lookup(before, i);
    assert i < 4 ==> Lookup(logs, i + 1) == None;
  }

  lemma LastRename(before: Logs, logs: Logs)
    requires RenamedAbove(before, logs, 0)
    ensures Rename(logs, 0, 1) == Shifted(before)
  {
    var after := Rename(logs, 0, 1);
    assert Lookup(logs, 0) == Lookup(before, 0) && Lookup(logs, 1) == None;
    assert forall s: nat :: Lookup(after, s) == ShiftedSlot(before, s);
    SameLookups(after, Shifted(before));
  }

  lemma SameLookups(a: Logs, b: Logs)
    requires forall s: nat :: Lookup(a, s) == Lookup(b, s)
    ensures a == b
  {
    assert forall s: nat :: s in a <==> Lookup(a, s).Some?;
    assert forall s: nat :: s in b <==> Lookup(b, s).Some?;
    assert forall s: nat :: s in a ==> Lookup(a, s) == Some(a[s]) == Some(b[s]);
  }

  // ---- Numbering ----

  /** The log files are audit.log, audit.log.1, ... without a gap. */
  ghost predicate HasSlots(logs: Logs, n: nat) {
    forall s: nat :: s in logs <==> s < n
  }

  /** The renames move slots 0 to 4 up by one, whatever was there, exactly unless slot 5 is
      taken while slot 4 is empty. */
  lemma ShiftIsByOne(logs: Logs)
    ensures (forall s: nat :: s < LAST_SLOT ==> Lookup(Shifted(logs), s + 1) == Lookup(logs, s))
       <==> (4 in logs || 5 !in logs)
  {
    forall s: nat | s <= LAST_SLOT
      ensures Lookup(Shifted(logs), s) == ShiftedSlot(logs, s)
    {}
    if 4 !in logs && 5 in logs {
      assert Lookup(Shifted(logs), 4 + 1) != Lookup(logs, 4);
    }
  }

  /** A gapless directory is shifted by one, and only a file in slot 5 is lost. */
  lemma ShiftOfGapless(logs: Logs, n: nat)
    requires HasSlots(logs, n) && n <= LAST_SLOT + 1
    ensures forall s: nat :: s in Shifted(logs) <==> 1 <= s <= n && s <= LAST_SLOT
    ensures forall s: nat :: s in Shifted(logs) ==> Shifted(logs)[s] == logs[s - 1]
  {}

  /** Files further down were written earlier. */
  ghost predicate AgeOrdered(logs: Logs, n: nat, now: int)
    requires HasSlots(logs, n)
  {
    && (forall i, j :: 0 <= i < j < n ==> logs[j].mtime <= logs[i].mtime)
    && (n > 0 ==> logs[0].mtime <= now)
  }

  lemma {:induction false} GaplessCount(logs: Logs, n: nat) returns (m: nat)
    requires forall s :: s in logs ==> s < n
    requires forall i, j :: 0 <= i < j < n && j in logs ==> i in logs
    ensures HasSlots(logs, m) && m <= n
  {
    if n == 0 || n - 1 in logs {
      m := n;
    } else {
      m := GaplessCount(logs, n - 1);
    }
  }

  /** One rotation of a gapless, age-ordered directory: a fresh audit.log in front of an
      initial stretch of the old files, each one slot further down. */
  lemma RotationKeepsStretch(logs: Logs, n: nat, maxSizeMB: int, keep: Retention, now: int)
    returns (m: nat)
    requires HasSlots(logs, n) && n <= LAST_SLOT + 1
    requires AgeOrdered(logs, n, now) && NeedsRotation(logs, maxSizeMB)
    ensures 1 <= m <= n + 1 && m <= LAST_SLOT + 1
    ensures var after := Rotated(logs, maxSizeMB, keep, now);
      && HasSlots(after, m)
      && after[0] == LogFile([], now)
      && (forall s: nat :: 0 < s < m ==> after[s] == logs[s - 1])
      && AgeOrdered(after, m, now)
  {
    ShiftOfGapless(logs, n);
    var after := Rotated(logs, maxSizeMB, keep, now);
    RotatedSlots(logs, n, maxSizeMB, keep, now);
    forall i: nat, j: nat | i < j < n + 1 && j in after
      ensures i in after
    {
      if i > 0 { assert after[j] == logs[j - 1]; }
    }
    m := GaplessCount(after, n + 1);
    assert LAST_SLOT + 1 !in after;
  }

  lemma RotatedSlots(logs: Logs, n: nat, maxSizeMB: int, keep: Retention, now: int)
    requires HasSlots(logs, n) && n <= LAST_SLOT + 1 && NeedsRotation(logs, maxSizeMB)
    ensures
      var after := Rotated(logs, maxSizeMB, keep, now);
      && 0 in after && after[0] == LogFile([], now)
      && forall s: nat :: 0 < s ==>
        && (s in after <==> s <= n && s <= LAST_SLOT && (keep.enabled ==> logs[s - 1].mtime >= keep.cutoff))
        && (s in after ==> after[s] == logs[s - 1])
  {
    ShiftOfGapless(logs, n);
    var shifted := Shifted(logs);
    var purged := Purge(shifted, keep);
    assert forall s: nat :: s in purged <==> s in shifted && (keep.enabled ==> shifted[s].mtime >= keep.cutoff);
  }

  /** Whatever the modification times, a rotation leaves the files gapless exactly when the purge
      is off, or no file that is moved is old while one that is moved further down is not. */
  lemma RotationKeepsGapless(logs: Logs, n: nat, maxSizeMB: int, keep: Retention, now: int)
    requires HasSlots(logs, n) && n <= LAST_SLOT + 1 && NeedsRotation(logs, maxSizeMB)
    ensures (exists m :: HasSlots(Rotated(logs, maxSizeMB, keep, now), m))
       <==> (keep.enabled ==>
               forall i, j :: 0 <= i < j < n && j < LAST_SLOT && logs[j].mtime >= keep.cutoff ==>
                 logs[i].mtime >= keep.cutoff)
  {
    RotatedSlots(logs, n, maxSizeMB, keep, now);
    var after := Rotated(logs, maxSizeMB, keep, now);
    if exists m :: HasSlots(after, m) {
      var m :| HasSlots(after, m);
      forall i: nat, j: nat | keep.enabled && i < j < n && j < LAST_SLOT && logs[j].mtime >= keep.cutoff
        ensures logs[i].mtime >= keep.cutoff
      {
        assert j + 1 in after;
        assert i + 1 in after;
      }
    }
    if keep.enabled ==> forall i, j :: 0 <= i < j < n && j < LAST_SLOT && logs[j].mtime >= keep.cutoff ==>
      logs[i].mtime >= keep.cutoff
    {
      forall i: nat, j: nat | i < j < n + 1 && j in after
        ensures i in after
      {
        if i > 0 && keep.enabled { assert logs[j - 1].mtime >= keep.cutoff; }
      }
      var m := GaplessCount(after, n + 1);
    }
  }

  // ---- When files move and which are lost ----

  /** Below the limit, or without one, nothing is touched; at the limit audit.log becomes
      audit.log.1, unless the purge takes it, behind a fresh file. */
  lemma RotatesExactlyAtLimit(logs: Logs, maxSizeMB: int, keep: Retention, now: int)
    requires 0 in logs
    ensures maxSizeMB <= 0 || |logs[0].content| < maxSizeMB * 0x10_0000 ==>
      Rotated(logs, maxSizeMB, keep, now) == logs
    ensures maxSizeMB > 0 && |logs[0].content| >= maxSizeMB * 0x10_0000 ==>
      var after := Rotated(logs, maxSizeMB, keep, now);
      && 0 in after && after[0] == LogFile([], now)
      && (!keep.enabled || logs[0].mtime >= keep.cutoff ==> 1 in after && after[1] == logs[0])
  {
    assert ShiftedSlot(logs, 1) == Some(logs[0]);
  }

  /** A rotation at this limit would lose a file: the last one by renaming, or an old one. */
  predicate LosesFile(logs: Logs, maxSizeMB: int, retention: bool, cutoff: int)
    requires 0 in logs
  {
    && 0 < maxSizeMB && |logs[0].content| >= maxSizeMB * 0x10_0000
    && (5 in logs || (retention && exists s :: s in logs && logs[s].mtime < cutoff))
  }

  /** What was in slot s is in slot s + 1 afterwards, exactly unless it was in slot 5 or is older
      than the cutoff. */
  lemma MovedExactlyWhen(logs: Logs, n: nat, s: nat, maxSizeMB: int, keep: Retention, now: int)
    requires HasSlots(logs, n) && s < n <= 6
    requires 0 < maxSizeMB && |logs[0].content| >= maxSizeMB * 0x10_0000
    ensures
      var after := Rotated(logs, maxSizeMB, keep, now);
      s + 1 in after && after[s + 1] == logs[s] <==> s < 5 && (keep.enabled ==> logs[s].mtime >= keep.cutoff)
  {
    RotatedSlots(logs, n, maxSizeMB, keep, now);
  }

  /** So a rotation adds a file exactly when it loses none. */
  lemma LosesFileExactlyWhen(logs: Logs, n: nat, maxSizeMB: int, keep: Retention, now: int)
    requires HasSlots(logs, n) && 0 < n <= LAST_SLOT + 1 && NeedsRotation(logs, maxSizeMB)
    ensures HasSlots(Rotated(logs, maxSizeMB, keep, now), n + 1)
       <==> !LosesFile(logs, maxSizeMB, keep.enabled, keep.cutoff)
    ensures !keep.enabled && n == LAST_SLOT + 1 ==> HasSlots(Rotated(logs, maxSizeMB, keep, now), n)
  {
    var after := Rotated(logs, maxSizeMB, keep, now);
    RotatedSlots(logs, n, maxSizeMB, keep, now);
    if HasSlots(after, n + 1) {
      forall s | s in logs
        ensures s != 5 && (keep.enabled ==> logs[s].mtime >= keep.cutoff)
      {
        assert s + 1 in after;
      }
    }
  }
}
