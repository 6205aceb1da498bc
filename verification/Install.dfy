/** The installer of kernel/src/fs/install.rs: the two-call confirmation, and `apply` over the label and the volume. */
module Install {
  import opened Bytes
  import opened Blk
  import opened FatVolume
  import Gpt
  import Part
  import VolumeRuns

  // ---------- The confirmation ----------

  /** One `step` call and what the system answered it: the live root and whether the target is acceptable. */
  datatype Call = Call(n: nat, live: Option<nat>, targetOk: bool) {
    predicate Acceptable() { live != Some(n) && targetOk }
  }

  datatype Outcome = RefuseLive | Refuse | Armed | Confirmed

  /** The new `PENDING` and the outcome of one call; `apply` runs exactly on `Confirmed`. */
  function Decide(pending: Option<nat>, c: Call): (Option<nat>, Outcome) {
    if c.live == Some(c.n) then (pending, RefuseLive)
    else if !c.targetOk then (pending, Refuse)
    else if pending == Some(c.n) then (None, Confirmed)
    else (Some(c.n), Armed)
  }

  /** `PENDING` after a run of calls from boot. */
  function Pending(calls: seq<Call>): Option<nat>
    decreases |calls|
  {
    if calls == [] then None else Decide(Pending(calls[..|calls| - 1]), calls[|calls| - 1]).0
  }

  /** The outcome of call `j` in a run. */
  function OutcomeAt(calls: seq<Call>, j: nat): Outcome
    requires j < |calls|
  {
    Decide(Pending(calls[..j]), calls[j]).1
  }

  /** Call `i` armed index `n`, and every later call of the run was refused. */
  ghost predicate ArmedSince(calls: seq<Call>, i: nat, n: nat) {
    && i < |calls|
    && calls[i].n == n && OutcomeAt(calls, i) == Armed
    && forall k :: i < k < |calls| ==> !calls[k].Acceptable()
  }

  lemma {:induction false} PendingMeaning(calls: seq<Call>, n: nat)
    ensures Pending(calls) == Some(n) <==> exists i: nat :: ArmedSince(calls, i, n)
    decreases |calls|
  {
    if calls != [] {
      var m := |calls| - 1;
      var before := calls[..m];
      PendingMeaning(before, n);
      forall k | 0 <= k < m
        ensures OutcomeAt(before, k) == OutcomeAt(calls, k)
      {
        assert before[..k] == calls[..k];
      }
      if calls[m].Acceptable() {
        if exists i: nat :: ArmedSince(calls, i, n) {
          var i: nat :| ArmedSince(calls, i, n);
          assert i == m;
        }
        if Pending(calls) == Some(n) {
          assert ArmedSince(calls, m, n);
        }
      } else {
        if exists i: nat :: ArmedSince(before, i, n) {
          var i: nat :| ArmedSince(before, i, n);
          assert ArmedSince(calls, i, n);
        }
        if exists i: nat :: ArmedSince(calls, i, n) {
          var i: nat :| ArmedSince(calls, i, n);
          assert ArmedSince(before, i, n);
        }
      }
    }
  }

  /** `apply` runs on call `j` exactly when the target is acceptable and the last acceptable call before it
      armed the same index. */
  lemma AppliesOnSecondCall(calls: seq<Call>, j: nat)
    requires j < |calls|
    ensures OutcomeAt(calls, j) == Confirmed
      <==> calls[j].Acceptable() && exists i: nat :: ArmedSince(calls[..j], i, calls[j].n)
  {
    PendingMeaning(calls[..j], calls[j].n);
  }

  // ---------- apply ----------

  /** `target_ok`; `payload` says whether the live volume holds every required file. */
  predicate TargetOk(blk: Table, n: nat, payload: bool)
    reads blk
  {
    && n < |blk.disks|
    && var u := Gpt.LastUsable(|blk.disks[n]|);
      u.Some? && u.value >= Gpt.ESP_START && payload
  }

  /** A target must be a disk of at least 64 MiB, with all that is to be copied at hand. */
  lemma TargetMeaning(blk: Table, n: nat, payload: bool)
    ensures TargetOk(blk, n, payload) <==> n < |blk.disks| && |blk.disks[n]| * 512 >= 64 * 1024 * 1024 && payload
  {
  }

  /** The byte size `apply` gives the volume of a disk of `sectors` sectors, in 64 bits. */
  function PartBytes(sectors: nat): u64
    requires sectors >= Gpt.MIN_SECTORS
  {
    CastU64((Gpt.LastUsable(sectors).value - Gpt.ESP_START + 1) * SECTOR)
  }

  /** That size is exact up to disks whose usable space has fewer than 2^64 bytes, and never too large. */
  lemma PartBytesExact(sectors: nat)
    requires sectors >= Gpt.MIN_SECTORS
    ensures PartBytes(sectors) <= (sectors - 2081) * SECTOR
    ensures PartBytes(sectors) == (sectors - 2081) * SECTOR <==> sectors - 2081 < 0x80_0000_0000_0000
  {
    var bytes := (sectors - 2081) * SECTOR;
    assert PartBytes(sectors) == CastU64(bytes);
    if bytes < U64_LIMIT {
      assert CastU64(bytes) == bytes;
    }
  }

  /** The byte size a mount gives a scanned volume: the product saturates. */
  function MountBytes(sectors: nat): u64 {
    if sectors * SECTOR < U64_LIMIT then sectors * SECTOR else U64_LIMIT - 1
  }

  /** The installer formats the volume in the size it is later mounted with exactly up to the same bound. */
  lemma SizesAgree(sectors: nat)
    requires sectors >= Gpt.MIN_SECTORS
    ensures PartBytes(sectors) == MountBytes(sectors - 2081) <==> sectors - 2081 < 0x80_0000_0000_0000
  {
    PartBytesExact(sectors);
  }

  /** The first disk on which they differ: the installer formats a volume of no bytes. */
  lemma SizesDiffer()
    ensures PartBytes(0x80_0000_0000_0000 + 2081) == 0 && MountBytes(0x80_0000_0000_0000) == U64_LIMIT - 1
  {
  }

  /** What a finished install leaves on the disk. */
  ghost predicate Installed(d: Disk, diskGuid: seq<byte>, partGuid: seq<byte>)
    requires |diskGuid| == 16 && |partGuid| == 16
  {
    && |d| >= Gpt.MIN_SECTORS
    && Gpt.HasEsp(d, diskGuid, partGuid, Gpt.RightSums(|d|, diskGuid, partGuid))
  }

  /** What the FAT library does with the two volumes it is handed, and with each once its errors count no
      more: after the first of them, and while it unmounts. */
  datatype Traffic = Traffic(
    format: seq<VolumeRuns.Op>, afterFormat: seq<VolumeRuns.Op>, copy: seq<VolumeRuns.Op>, unmount: seq<VolumeRuns.Op>)

  /**
   `apply`, with the FAT library as an arbitrary client. However it uses its volumes, also after
   device errors, the label survives once it is written (`labelled`). `content` tells whether
   the library also got a FAT32 volume with all its files out of that traffic.
   */
  method Apply(blk: Table, n: nat, live: Option<nat>, payload: bool, diskGuid: seq<byte>, partGuid: seq<byte>,
               traffic: Traffic, content: bool)
    returns (ok: bool, ghost labelled: bool, ghost ignored: nat)
    requires |diskGuid| == 16 && |partGuid| == 16
    modifies blk
    ensures ok ==>
      && old(TargetOk(blk, n, payload)) && live != Some(n) && content
      && n < |blk.disks| && Installed(blk.disks[n], diskGuid, partGuid)
      && blk.faults == old(blk.faults) + ignored
    ensures blk.faults >= old(blk.faults)
    ensures traffic.afterFormat == [] && traffic.unmount == [] ==> ignored == 0
    ensures !ok ==> blk.faults > old(blk.faults) || !old(TargetOk(blk, n, payload)) || live == Some(n) || !content
    ensures labelled ==> n < |blk.disks| && Installed(blk.disks[n], diskGuid, partGuid)
    ensures old(TargetOk(blk, n, payload)) && live != Some(n) && blk.faults == old(blk.faults) ==> labelled
    ensures !old(TargetOk(blk, n, payload)) || live == Some(n) ==> blk.disks == old(blk.disks)
    ensures n < |old(blk.disks)| ==> OnlyChanged(old(blk.disks), blk.disks, n, 0, |old(blk.disks)[n]|)
  {
    hide Gpt.HasEsp, Gpt.RightSums, OnlyChanged;
    ghost var before := blk.disks;
    Unchanged(before, n, 0, if n < |before| then |before[n]| else 0);
    labelled, ignored := false, 0;
    if live == Some(n) {
      return false, false, 0;
    }
    if !TargetOk(blk, n, payload) {
      return false, false, 0;
    }
    var sectors := |blk.disks[n]|;
    var lastUsable := Gpt.LastUsable(sectors).value;
    ok := Gpt.WriteEsp(blk, n, diskGuid, partGuid);
    if !ok {
      return;
    }
    var partBytes := CastU64((lastUsable - Gpt.ESP_START + 1) * SECTOR);
    ghost var written := blk.disks;
    SameShape(before, written, n, 0, sectors);
    labelled := true;
    ok, ignored := UseVolume(blk, n, partBytes, traffic.format, traffic.afterFormat, diskGuid, partGuid);
    ghost var formatted := blk.disks;
    Confined(before, written, formatted, n);
    if !ok {
      return;
    }
    ghost var more;
    ok, more := UseVolume(blk, n, partBytes, traffic.copy, traffic.unmount, diskGuid, partGuid);
    ignored := ignored + more;
    Confined(before, formatted, blk.disks, n);
    if !ok || !content {
      return false, labelled, ignored;
    }
    ok := blk.Flush(n);
  }

  /** Hand a fresh `FatDisk` over the volume to a client, who goes on using it when device errors no longer
      count (`ignored`): the label does not notice. */
  method UseVolume(blk: Table, n: nat, partBytes: u64, ops: seq<VolumeRuns.Op>, after: seq<VolumeRuns.Op>,
                   ghost diskGuid: seq<byte>, ghost partGuid: seq<byte>)
    returns (ok: bool, ghost ignored: nat)
    requires |diskGuid| == 16 && |partGuid| == 16
    requires n < |blk.disks| && Installed(blk.disks[n], diskGuid, partGuid)
    requires partBytes == PartBytes(|blk.disks[n]|)
    modifies blk
    ensures OnlyChanged(old(blk.disks), blk.disks, n, Gpt.ESP_START, |old(blk.disks)[n]| - 33)
    ensures n < |blk.disks| && Installed(blk.disks[n], diskGuid, partGuid)
    ensures blk.faults >= old(blk.faults) + ignored && (ok <==> blk.faults == old(blk.faults) + ignored)
    ensures after == [] ==> ignored == 0
    ensures |blk.disks[n]| == |old(blk.disks)[n]|
  {
    hide Gpt.HasEsp, Gpt.RightSums, PartBytes;
    ghost var d := blk.disks[n];
    PartBytesExact(|d|);
    var vol := new FatDisk(blk, n, Gpt.ESP_START, partBytes);
    var replies;
    ok, replies := VolumeRuns.Drive(vol, ops);
    ghost var mid, counted := blk.disks, blk.faults;
    VolumeRuns.Persist(vol, after);
    ignored := blk.faults - counted;
    ChangedTwice(old(blk.disks), mid, blk.disks, n, Gpt.ESP_START, vol.EndLba());
    Gpt.LabelOutsideVolume(d, blk.disks[n], diskGuid, partGuid, Gpt.RightSums(|d|, diskGuid, partGuid));
  }

  lemma SameShape(ds: seq<Disk>, es: seq<Disk>, n: nat, lo: nat, hi: nat)
    requires n < |ds| && OnlyChanged(ds, es, n, lo, hi)
    ensures n < |es| && |ds[n]| == |es[n]|
  {
  }

  /** Writes anywhere on disk `n`, then writes confined to its volume, touch only disk `n`. */
  lemma Confined(ds: seq<Disk>, es: seq<Disk>, fs: seq<Disk>, n: nat)
    requires n < |ds| && OnlyChanged(ds, es, n, 0, |ds[n]|)
    requires n < |es| && OnlyChanged(es, fs, n, Gpt.ESP_START, |es[n]| - 33)
    ensures OnlyChanged(ds, fs, n, 0, |ds[n]|)
  {
  }

  /** After an install the scanner finds exactly one volume, the one `apply` used. */
  lemma InstalledScan(d: Disk, diskGuid: seq<byte>, partGuid: seq<byte>)
    requires |diskGuid| == 16 && |partGuid| == 16 && |d| < U64_LIMIT
    requires Installed(d, diskGuid, partGuid)
    ensures Part.VolumesOf(d) == [Part.Volume(Gpt.ESP_START, |d| - 2081)]
    ensures MountBytes(|d| - 2081) == PartBytes(|d|) <==> |d| - 2081 < 0x80_0000_0000_0000
  {
    hide Part.VolumesOf, Gpt.HasEsp, Gpt.RightSums;
    Gpt.InstalledVolume(d, diskGuid, partGuid, Gpt.RightSums(|d|, diskGuid, partGuid));
    SizesAgree(|d|);
  }

  /** `apply`, and then the scan that looks for file systems: when no device fails during the scan, one volume. */
  method ApplyAndScan(blk: Table, n: nat, live: Option<nat>, payload: bool, diskGuid: seq<byte>, partGuid: seq<byte>,
                      traffic: Traffic, content: bool)
    returns (ok: bool, found: seq<Part.Volume>, ghost atScan: nat)
    requires |diskGuid| == 16 && |partGuid| == 16 && (n < |blk.disks| ==> |blk.disks[n]| < U64_LIMIT)
    modifies blk
    ensures old(blk.faults) <= atScan <= blk.faults
    ensures ok && blk.faults == atScan ==>
      n < |blk.disks| && |blk.disks[n]| >= Gpt.MIN_SECTORS && found == [Part.Volume(2048, |blk.disks[n]| - 2081)]
  {
    hide Installed, Part.VolumesOf, OnlyChanged, PartBytes;
    ghost var before := blk.disks;
    ghost var labelled, ignored;
    ok, labelled, ignored := Apply(blk, n, live, payload, diskGuid, partGuid, traffic, content);
    atScan := blk.faults;
    found := Part.Volumes(blk, n);
    if ok {
      SameShape(before, blk.disks, n, 0, |before[n]|);
      InstalledScan(blk.disks[n], diskGuid, partGuid);
    }
  }

  class Installer {
    /** `PENDING` */
    var pending: Option<nat>

    constructor ()
      ensures pending == None
    {
      pending := None;
    }

    /** `step`: nothing is written unless the call confirms an armed index. */
    method Step(blk: Table, n: nat, live: Option<nat>, payload: bool, diskGuid: seq<byte>, partGuid: seq<byte>,
                traffic: Traffic, content: bool)
      returns (outcome: Outcome, ok: bool)
      requires |diskGuid| == 16 && |partGuid| == 16
      modifies this, blk
      ensures (pending, outcome) == Decide(old(pending), Call(n, live, old(TargetOk(blk, n, payload))))
      ensures outcome == RefuseLive <==> live == Some(n)
      ensures outcome == Refuse <==> live != Some(n) && !old(TargetOk(blk, n, payload))
      ensures outcome != Confirmed ==> !ok && blk.disks == old(blk.disks) && blk.faults == old(blk.faults)
      ensures ok ==> n < |blk.disks| && Installed(blk.disks[n], diskGuid, partGuid)
      ensures outcome == Confirmed && !ok ==> blk.faults > old(blk.faults) || !content
    {
      hide Gpt.HasEsp, Gpt.RightSums, OnlyChanged;
      ok := false;
      if live == Some(n) {
        return RefuseLive, false;
      }
      if !TargetOk(blk, n, payload) {
        return Refuse, false;
      }
      if pending == Some(n) {
        pending := None;
        ghost var labelled, ignored;
        ok, labelled, ignored := Apply(blk, n, live, payload, diskGuid, partGuid, traffic, content);
        return Confirmed, ok;
      }
      pending := Some(n);
      return Armed, false;
    }
  }
}
