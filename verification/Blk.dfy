/** The block-device table of kernel/src/fs/blk.rs: disks are arrays of 512-byte sectors. */
module Blk {
  import opened Bytes

  const SECTOR: nat := 512

  type Sector = s: seq<byte> | |s| == SECTOR witness Zeros(SECTOR)
  type Disk = seq<Sector>

  /** The byte at offset `x` of a disk; offsets past the end read as zero. */
  function ByteAt(d: Disk, x: nat): byte {
    if x / SECTOR < |d| then d[x / SECTOR][x % SECTOR] else 0
  }

  /** The `n` bytes from offset `at` of a disk. */
  function Slice(d: Disk, at: nat, n: nat): (s: seq<byte>)
    ensures |s| == n && forall k :: 0 <= k < n ==> s[k] == ByteAt(d, at + k)
  {
    seq<byte>(n, k requires 0 <= k => ByteAt(d, at + k))
  }

  /** Same shape, and equal except possibly in sectors `lo <= l < hi`. */
  ghost predicate SameOutside(d: Disk, e: Disk, lo: int, hi: int) {
    && |d| == |e|
    && forall l :: 0 <= l < |d| && !(lo <= l < hi) ==> d[l] == e[l]
  }

  /** All disks keep their shape, and only `disk` may change, in sectors `lo <= l < hi`. */
  ghost predicate OnlyChanged(ds: seq<Disk>, es: seq<Disk>, disk: nat, lo: int, hi: int) {
    && |ds| == |es|
    && (disk < |ds| ==> SameOutside(ds[disk], es[disk], lo, hi))
    && forall i :: 0 <= i < |ds| && i != disk ==> ds[i] == es[i]
  }

  function Put(ds: seq<Disk>, disk: nat, lba: nat, sector: Sector): seq<Disk>
    requires disk < |ds| && lba < |ds[disk]|
  {
    var d: Disk := ds[disk][lba := sector];
    ds[disk := d]
  }

  class Table {
    var disks: seq<Disk>
    /** How many transfers the devices have failed so far. */
    ghost var faults: nat

    predicate InRange(disk: nat, lba: nat)
      reads this
    {
      disk < |disks| && lba < |disks[disk]|
    }

    predicate AllInRange(disk: nat, lba: nat, n: nat)
      reads this
    {
      disk < |disks| && lba + n <= |disks[disk]|
    }

    /** `read_blocks_at`: whole sectors only. A device may fail at any time; the buffer is then worthless. */
    method ReadBlocks(disk: nat, lba: nat, buf: array<byte>) returns (ok: bool)
      modifies this`faults, buf
      ensures ok ==> buf.Length % SECTOR == 0 && AllInRange(disk, lba, buf.Length / SECTOR) && faults == old(faults)
      ensures ok ==> forall i :: 0 <= i < buf.Length ==> buf[i] == disks[disk][lba + i / SECTOR][i % SECTOR]
      ensures !ok && faults == old(faults) ==> buf.Length % SECTOR != 0 || !AllInRange(disk, lba, buf.Length / SECTOR)
      ensures faults >= old(faults)
    {
      if buf.Length % SECTOR != 0 || disk >= |disks| || lba + buf.Length / SECTOR > |disks[disk]| {
        return false;
      }
      if * {
        faults := faults + 1;
        return false;
      }
      var d := disks[disk];
      forall i | 0 <= i < buf.Length {
        buf[i] := d[lba + i / SECTOR][i % SECTOR];
      }
      return true;
    }

    /** One sector into a buffer of that size. */
    method ReadBlock(disk: nat, lba: nat, buf: array<byte>) returns (ok: bool)
      requires buf.Length == SECTOR
      modifies this`faults, buf
      ensures ok ==> InRange(disk, lba) && buf[..] == disks[disk][lba] && faults == old(faults)
      ensures !ok ==> faults > old(faults) || (!InRange(disk, lba) && faults == old(faults))
      ensures faults >= old(faults)
    {
      ok := ReadBlocks(disk, lba, buf);
      if ok {
        assert forall i :: 0 <= i < SECTOR ==> buf[i] == disks[disk][lba + i / SECTOR][i % SECTOR] == disks[disk][lba][i];
      }
    }

    /** `write_blocks_at`: one or more whole sectors. A failing device may or may not have changed each of
        them, and no other. */
    method WriteBlocks(disk: nat, lba: nat, data: seq<byte>) returns (ok: bool)
      modifies this
      ensures ok ==>
        && data != [] && |data| % SECTOR == 0 && old(AllInRange(disk, lba, |data| / SECTOR)) && faults == old(faults)
        && |disks| == |old(disks)| && |disks[disk]| == |old(disks)[disk]|
        && forall i :: 0 <= i < |data| ==> disks[disk][lba + i / SECTOR][i % SECTOR] == data[i]
      ensures !ok && faults == old(faults) ==>
        data == [] || |data| % SECTOR != 0 || !old(AllInRange(disk, lba, |data| / SECTOR))
      ensures faults >= old(faults)
      ensures OnlyChanged(old(disks), disks, disk, lba, lba + |data| / SECTOR)
    {
      if data == [] || |data| % SECTOR != 0 || disk >= |disks| || lba + |data| / SECTOR > |disks[disk]| {
        return false;
      }
      ok := true;
      if * {
        faults := faults + 1;
        ok := false;
      }
      var n, k := |data| / SECTOR, 0;
      while k < n
        invariant 0 <= k <= n && faults == old(faults) + (if ok then 0 else 1)
        invariant OnlyChanged(old(disks), disks, disk, lba, lba + n)
        invariant ok ==> forall j :: 0 <= j < k ==> disks[disk][lba + j] == data[j * SECTOR..(j + 1) * SECTOR]
      {
        if ok {
          disks := Put(disks, disk, lba + k, data[k * SECTOR..(k + 1) * SECTOR]);
        } else if * {
          disks := Put(disks, disk, lba + k, data[k * SECTOR..(k + 1) * SECTOR]);
        }
        k := k + 1;
      }
      if ok {
        forall i | 0 <= i < |data|
          ensures disks[disk][lba + i / SECTOR][i % SECTOR] == data[i]
        {
          assert disks[disk][lba + i / SECTOR] == data[i / SECTOR * SECTOR..(i / SECTOR + 1) * SECTOR];
        }
      }
    }

    /** One sector. */
    method WriteBlock(disk: nat, lba: nat, data: Sector) returns (ok: bool)
      modifies this
      ensures ok ==>
        && old(InRange(disk, lba))
        && disks == Put(old(disks), disk, lba, data)
        && faults == old(faults)
      ensures !ok ==> faults > old(faults) || (!old(InRange(disk, lba)) && faults == old(faults))
      ensures faults >= old(faults)
      ensures OnlyChanged(old(disks), disks, disk, lba, lba + 1)
    {
      ghost var before := disks;
      ok := WriteBlocks(disk, lba, data);
      if ok {
        OneSector(before, disks, disk, lba, data);
      }
    }

    /** `flush_at`: nothing changes; the device may fail. */
    method Flush(disk: nat) returns (ok: bool)
      modifies this`faults
      ensures ok ==> disk < |disks| && faults == old(faults)
      ensures !ok ==> faults > old(faults) || (disk >= |disks| && faults == old(faults))
      ensures faults >= old(faults)
    {
      if disk >= |disks| {
        return false;
      }
      if * {
        faults := faults + 1;
        return false;
      }
      return true;
    }
  }

  /** A write of one sector as an update. */
  lemma OneSector(ds: seq<Disk>, es: seq<Disk>, disk: nat, lba: nat, data: Sector)
    requires OnlyChanged(ds, es, disk, lba, lba + 1) && disk < |ds| && lba < |ds[disk]|
    requires forall i :: 0 <= i < SECTOR ==> es[disk][lba + i / SECTOR][i % SECTOR] == data[i]
    ensures es == Put(ds, disk, lba, data)
  {
    assert forall i :: 0 <= i < SECTOR ==> es[disk][lba][i] == data[i] by {
      assert forall i :: 0 <= i < SECTOR ==> i / SECTOR == 0 && i % SECTOR == i;
    }
    assert es[disk][lba] == data;
    assert es[disk] == ds[disk][lba := data];
  }
}
