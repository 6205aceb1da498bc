/**
 The byte volume of kernel/src/fs/fat_disk.rs: a one-sector write-through cache over the block
 table. While the device succeeds it is a flat array of `size` bytes.
 */
module FatVolume {
  import opened Bytes
  import opened Blk

  datatype Result = Ok(value: nat) | Err

  datatype SeekFrom = Start(n: u64) | Current(off: i64) | End(off: i64)

  /** Where a seek aims. */
  function Target(from: SeekFrom, pos: nat, size: nat): int {
    match from
    case Start(n) => n
    case Current(off) => pos + off
    case End(off) => size + off
  }

  /** `p as u64` of a 128-bit sum. */
  function CastU64(p: int): u64 {
    p % U64_LIMIT
  }

  /** The position `seek` leaves, if it does not refuse: the three arms, then the clamp. */
  function SeekPos(from: SeekFrom, pos: nat, size: nat): Option<nat> {
    match from
    case Start(n) => Some(Min(n, size))
    case Current(off) => if pos + off < 0 then None else Some(Min(CastU64(pos + off), size))
    case End(off) => if size + off < 0 then None else Some(Min(CastU64(size + off), size))
  }

  class FatDisk {
    const blk: Table
    const disk: nat
    const startLba: nat
    const size: u64
    var pos: nat
    var bounce: array<byte>
    var cachedLba: Option<nat>

    constructor (blk: Table, disk: nat, startLba: nat, size: u64)
      ensures this.blk == blk && this.disk == disk && this.startLba == startLba && this.size == size
      ensures Valid() && fresh(bounce) && pos == 0
    {
      this.blk, this.disk, this.startLba, this.size := blk, disk, startLba, size;
      pos := 0;
      bounce := new byte[SECTOR](_ => 0);
      cachedLba := None;
    }

    /** What holds always, also after a device error. */
    ghost predicate Shaped()
      reads this
    {
      bounce.Length == SECTOR && pos <= size
    }

    /** While the device succeeds, a cached sector is also the device's sector. */
    ghost predicate Valid()
      reads this, bounce, blk
    {
      && Shaped()
      && (cachedLba.Some? ==>
            blk.InRange(disk, startLba + cachedLba.value)
            && bounce[..] == blk.disks[disk][startLba + cachedLba.value])
    }

    /** The disk the volume lives on. */
    ghost function Device(): Disk
      reads blk
    {
      if disk < |blk.disks| then blk.disks[disk] else []
    }

    /** The first byte of the volume, as an offset on its disk. */
    function Base(): nat {
      startLba * SECTOR
    }

    /** One past the last sector the volume touches. */
    function EndLba(): nat {
      startLba + (size + SECTOR - 1) / SECTOR
    }

    /** Whether every sector holding bytes `lo..hi` of the volume exists on the device. */
    ghost predicate OnDevice(lo: nat, hi: nat)
      reads blk
    {
      lo < hi ==> blk.InRange(disk, startLba + (hi - 1) / SECTOR)
    }

    method Read(buf: array<byte>) returns (r: Result)
      requires Shaped() && buf != bounce
      modifies this`pos, this`cachedLba, bounce, buf, blk`faults
      ensures blk.faults >= old(blk.faults)
      ensures Shaped() && (r.Ok? ==> r.value == Min(buf.Length, size - old(pos)) && pos == old(pos) + r.value)
      ensures old(Valid()) ==> var n := Min(buf.Length, size - old(pos));
        if r.Ok? then
          && Valid() && blk.faults == old(blk.faults)
          && (forall k :: 0 <= k < n ==> buf[k] == ByteAt(Device(), Base() + old(pos) + k))
          && (forall k :: n <= k < buf.Length ==> buf[k] == old(buf[k]))
        else
          blk.faults > old(blk.faults) || !OnDevice(old(pos), old(pos) + n)
    {
      if buf.Length == 0 || pos >= size {
        return Ok(0);
      }
      var done := 0;
      while done < buf.Length && pos < size
        invariant 0 <= done <= buf.Length && pos == old(pos) + done && Shaped() && blk.faults >= old(blk.faults)
        invariant old(Valid()) ==> Valid() && blk.faults == old(blk.faults)
        invariant old(Valid()) ==> forall k :: 0 <= k < done ==> buf[k] == ByteAt(Device(), Base() + old(pos) + k)
        invariant forall k :: done <= k < buf.Length ==> buf[k] == old(buf[k])
        decreases buf.Length - done
      {
        var ok, n := ReadChunk(buf, done);
        if !ok {
          return Err;
        }
        done := done + n;
      }
      return Ok(done);
    }

    /** One turn of the read loop: deliver what the sector under the cursor holds of the request. */
    method ReadChunk(buf: array<byte>, done: nat) returns (ok: bool, n: nat)
      requires Shaped() && buf != bounce && done < buf.Length && pos < size
      modifies this`pos, this`cachedLba, bounce, buf, blk`faults
      ensures Shaped() && blk.faults >= old(blk.faults)
      ensures !ok ==> blk.faults > old(blk.faults) || !blk.InRange(disk, startLba + old(pos) / SECTOR)
      ensures ok && old(Valid()) ==> Valid() && blk.faults == old(blk.faults)
      ensures ok ==> n == Min(Min(SECTOR - old(pos) % SECTOR, buf.Length - done), size - old(pos)) && pos == old(pos) + n
      ensures ok ==> forall k :: 0 <= k < buf.Length && !(done <= k < done + n) ==> buf[k] == old(buf[k])
      ensures ok && old(Valid()) ==> forall k :: done <= k < done + n ==> buf[k] == ByteAt(Device(), Base() + old(pos) + (k - done))
    {
      hide ByteAt;
      var lba, off := pos / SECTOR, pos % SECTOR;
      n := 0;
      if cachedLba != Some(lba) {
        ok := blk.ReadBlock(disk, startLba + lba, bounce);
        if !ok {
          return;
        }
        cachedLba := Some(lba);
      }
      var avail := Min(SECTOR - off, buf.Length - done);
      n := Min(avail, size - pos);
      ghost var d, sector := Device(), bounce[..];
      var chunk := bounce[off..off + n];
      forall k | 0 <= k < n && old(Valid())
        ensures chunk[k] == ByteAt(d, Base() + pos + k)
      {
        assert chunk[k] == sector[off + k];
        SectorByte(d, startLba, pos, k);
      }
      CopyInto(buf, done, chunk);
      assert bounce[..] == sector && Device() == d;
      pos := pos + n;
      ok := true;
    }

    method Write(src: seq<byte>) returns (r: Result)
      requires Shaped()
      modifies this`pos, this`cachedLba, bounce, blk
      ensures blk.faults >= old(blk.faults)
      ensures Shaped() && (r.Ok? ==> r.value == Min(|src|, size - old(pos)) && pos == old(pos) + r.value)
      ensures old(Valid()) ==> var n := Min(|src|, size - old(pos));
        if r.Ok? then
          && Valid() && blk.faults == old(blk.faults)
          && Written(old(blk.disks), blk.disks, disk, Base() + old(pos), src[..n])
        else
          blk.faults > old(blk.faults) || !old(OnDevice(pos, pos + Min(|src|, size - pos)))
      ensures OnlyChanged(old(blk.disks), blk.disks, disk, startLba, EndLba())
    {
      hide OnlyChanged, Written;
      Unchanged(blk.disks, disk, startLba, EndLba());
      WrittenNothing(blk.disks, disk, Base() + pos);
      if |src| == 0 {
        return Ok(0);
      }
      if pos >= size {
        return Ok(0);
      }
      var done := 0;
      while done < |src| && pos < size
        invariant 0 <= done <= |src| && pos == old(pos) + done && Shaped() && blk.faults >= old(blk.faults)
        invariant old(Valid()) ==> Valid() && blk.faults == old(blk.faults)
        invariant old(Valid()) ==> Written(old(blk.disks), blk.disks, disk, Base() + old(pos), src[..done])
        invariant OnlyChanged(old(blk.disks), blk.disks, disk, startLba, EndLba())
        decreases |src| - done
      {
        ghost var before := blk.disks;
        SameRanges(old(blk.disks), before, disk, startLba, EndLba());
        var ok, n := WriteChunk(src, done);
        ChangedTwice(old(blk.disks), before, blk.disks, disk, startLba, EndLba());
        if !ok {
          return Err;
        }
        if old(Valid()) {
          WrittenAppend(old(blk.disks), before, blk.disks, disk, Base() + old(pos), src[..done], src[done..done + n]);
        }
        assert src[..done] + src[done..done + n] == src[..done + n];
        done := done + n;
      }
      return Ok(done);
    }

    /** One turn of the write loop: through the cache and the device, at most one sector. */
    method WriteChunk(src: seq<byte>, done: nat) returns (ok: bool, n: nat)
      requires Shaped() && done < |src| && pos < size
      modifies this`pos, this`cachedLba, bounce, blk
      ensures Shaped() && blk.faults >= old(blk.faults)
      ensures !ok ==> blk.faults > old(blk.faults) || !old(blk.InRange(disk, startLba + pos / SECTOR))
      ensures ok && old(Valid()) ==> Valid() && blk.faults == old(blk.faults)
      ensures ok ==> n == Min(Min(SECTOR - old(pos) % SECTOR, |src| - done), size - old(pos)) && pos == old(pos) + n
      ensures ok && old(Valid()) ==> Written(old(blk.disks), blk.disks, disk, Base() + old(pos), src[done..done + n])
      ensures OnlyChanged(old(blk.disks), blk.disks, disk, startLba, EndLba())
    {
      hide OnlyChanged, Written, Splice;
      var lba, off := pos / SECTOR, pos % SECTOR;
      var remainSector := SECTOR - off;
      n := Min(Min(remainSector, |src| - done), size - pos);
      ghost var before, chunk := blk.disks, src[done..done + n];
      Unchanged(before, disk, startLba, EndLba());
      ok := Stage(lba, off, src[done..done + n]);
      if !ok {
        return;
      }
      var sector := bounce[..];
      ok := blk.WriteBlock(disk, startLba + lba, sector);
      Widen(before, blk.disks, disk, startLba + lba, startLba, EndLba());
      if !ok {
        return;
      }
      ghost var after := blk.disks;
      if old(Valid()) {
        StoredSector(before, disk, startLba + lba, sector, Base() + pos, chunk);
      }
      cachedLba := Some(lba);
      pos := pos + n;
      assert blk.disks == after && bounce[..] == sector;
    }

    /** Put the sector to be written in the bounce buffer: a whole new one, or the old one patched. */
    method Stage(lba: nat, off: nat, chunk: seq<byte>) returns (ok: bool)
      requires Shaped() && 0 < |chunk| && off + |chunk| <= SECTOR
      modifies bounce, blk`faults
      ensures blk.faults >= old(blk.faults)
      ensures !ok ==> blk.faults > old(blk.faults) || !blk.InRange(disk, startLba + lba)
      ensures ok ==> blk.faults == old(blk.faults)
      ensures ok && |chunk| == SECTOR ==> bounce[..] == chunk
      ensures ok && |chunk| < SECTOR && old(Valid()) ==>
        && blk.InRange(disk, startLba + lba)
        && bounce[..] == Splice(blk.disks[disk][startLba + lba], off, chunk)
    {
      if off == 0 && |chunk| == SECTOR {
        CopyInto(bounce, 0, chunk);
      } else {
        if cachedLba != Some(lba) {
          ok := blk.ReadBlock(disk, startLba + lba, bounce);
          if !ok {
            return;
          }
        }
        ghost var sector := bounce[..];
        CopyInto(bounce, off, chunk);
        assert bounce[..] == Splice(sector, off, chunk);
      }
      ok := true;
    }

    method Seek(from: SeekFrom) returns (r: Result)
      requires Shaped()
      modifies this`pos
      ensures Shaped() && (old(Valid()) ==> Valid())
      ensures r == Err <==> Target(from, old(pos), size) < 0
      ensures r == Err ==> pos == old(pos)
      ensures r.Ok? ==> r.value == pos && SeekPos(from, old(pos), size) == Some(pos)
      ensures r.Ok? ==> (pos == Min(Target(from, old(pos), size), size) <==> Target(from, old(pos), size) < U64_LIMIT)
    {
      SeekExact(from, pos, size);
      var next: u64;
      match from {
        case Start(n) =>
          next := n;
        case Current(off) =>
          var p := pos + off;
          if p < 0 {
            return Err;
          }
          next := CastU64(p);
        case End(off) =>
          var p := size + off;
          if p < 0 {
            return Err;
          }
          next := CastU64(p);
      }
      pos := Min(next, size);
      return Ok(pos);
    }
  }

  /** `es` is `ds` with `data` stored at byte `at` of `disk`, and every other byte of every disk kept. */
  ghost predicate Written(ds: seq<Disk>, es: seq<Disk>, disk: nat, at: nat, data: seq<byte>) {
    && |ds| == |es|
    && (forall i :: 0 <= i < |ds| && i != disk ==> ds[i] == es[i])
    && (disk < |ds| ==> Stored(ds[disk], es[disk], at, data))
    && (data != [] ==> disk < |ds|)
  }

  ghost predicate Stored(d: Disk, e: Disk, at: nat, data: seq<byte>) {
    && |d| == |e|
    && forall x: nat {:trigger ByteAt(e, x)} ::
      ByteAt(e, x) == if at <= x < at + |data| then data[x - at] else ByteAt(d, x)
  }

  /** A volume offset and its successors inside one sector. */
  lemma SectorOffset(start: nat, pos: nat, k: nat)
    requires pos % SECTOR + k < SECTOR
    ensures (start * SECTOR + pos + k) / SECTOR == start + pos / SECTOR
    ensures (start * SECTOR + pos + k) % SECTOR == pos % SECTOR + k
  {
  }

  lemma SectorByte(d: Disk, start: nat, pos: nat, k: nat)
    requires pos % SECTOR + k < SECTOR && start + pos / SECTOR < |d|
    ensures ByteAt(d, start * SECTOR + pos + k) == d[start + pos / SECTOR][pos % SECTOR + k]
  {
    SectorOffset(start, pos, k);
  }

  lemma Unchanged(ds: seq<Disk>, disk: nat, lo: nat, hi: nat)
    ensures OnlyChanged(ds, ds, disk, lo, hi)
  {
  }

  lemma Widen(ds: seq<Disk>, es: seq<Disk>, disk: nat, lba: nat, lo: nat, hi: nat)
    requires OnlyChanged(ds, es, disk, lba, lba + 1) && lo <= lba < hi
    ensures OnlyChanged(ds, es, disk, lo, hi)
  {
  }

  lemma WrittenNothing(ds: seq<Disk>, disk: nat, at: nat)
    ensures Written(ds, ds, disk, at, [])
  {
  }

  lemma SameRanges(ds: seq<Disk>, es: seq<Disk>, disk: nat, lo: nat, hi: nat)
    requires OnlyChanged(ds, es, disk, lo, hi)
    ensures |es| == |ds| && (disk < |ds| ==> |es[disk]| == |ds[disk]|)
  {
  }

  lemma ChangedTwice(ds: seq<Disk>, es: seq<Disk>, fs: seq<Disk>, disk: nat, lo: nat, hi: nat)
    requires OnlyChanged(ds, es, disk, lo, hi) && OnlyChanged(es, fs, disk, lo, hi)
    ensures OnlyChanged(ds, fs, disk, lo, hi)
  {
  }

  lemma StoredSector(ds: seq<Disk>, disk: nat, lba: nat, sector: Sector, at: nat, data: seq<byte>)
    requires disk < |ds| && lba < |ds[disk]| && lba == at / SECTOR
    requires at % SECTOR + |data| <= SECTOR
    requires |data| == SECTOR || sector == Splice(ds[disk][lba], at % SECTOR, data)
    requires |data| == SECTOR ==> sector == data
    ensures Written(ds, Put(ds, disk, lba, sector), disk, at, data)
  {
    var d, e := ds[disk], Put(ds, disk, lba, sector)[disk];
    forall x: nat
      ensures ByteAt(e, x) == if at <= x < at + |data| then data[x - at] else ByteAt(d, x)
    {
      if x / SECTOR == lba {
        assert x - at == x % SECTOR - at % SECTOR;
      }
    }
  }

  lemma WrittenAppend(ds: seq<Disk>, es: seq<Disk>, fs: seq<Disk>, disk: nat, at: nat, a: seq<byte>, b: seq<byte>)
    requires Written(ds, es, disk, at, a) && Written(es, fs, disk, at + |a|, b)
    ensures Written(ds, fs, disk, at, a + b)
  {
  }

  // ---------- Seeks ----------

  /** A seek that is not refused lands on the clamped target exactly when the target is below 2^64;
      otherwise the cast brings it back by 2^64, to a place before the cursor or the end it started from. */
  lemma SeekExact(from: SeekFrom, pos: nat, size: u64)
    requires pos <= size
    ensures var t := Target(from, pos, size);
      && (SeekPos(from, pos, size).None? <==> t < 0)
      && (t >= 0 ==> (SeekPos(from, pos, size) == Some(Min(t, size)) <==> t < U64_LIMIT))
      && (t >= U64_LIMIT ==> SeekPos(from, pos, size) == Some(t - U64_LIMIT) && t - U64_LIMIT < size)
  {
    var t := Target(from, pos, size);
    if t >= U64_LIMIT {
      assert CastU64(t) == t - U64_LIMIT;
    } else if t >= 0 {
      assert CastU64(t) == t;
    }
  }

  /** The three arms while nothing wraps: from the start, from the cursor, from the end; never past the end. */
  lemma SeekArms(n: u64, off: i64, pos: nat, size: u64)
    requires pos <= size
    ensures SeekPos(Start(n), pos, size) == Some(if n < size then n else size)
    ensures pos + off < 0 <==> SeekPos(Current(off), pos, size).None?
    ensures size + off < 0 <==> SeekPos(End(off), pos, size).None?
    ensures 0 <= pos + off < U64_LIMIT ==> SeekPos(Current(off), pos, size) == Some(if pos + off < size then pos + off else size)
    ensures 0 <= size + off < U64_LIMIT ==> SeekPos(End(off), pos, size) == Some(if off < 0 then size + off else size)
  {
    SeekExact(Current(off), pos, size);
    SeekExact(End(off), pos, size);
  }

  /** A volume on which every seek is right: exactly those of at most 2^63 bytes. */
  lemma SeekSafeIff(size: u64)
    ensures (forall from: SeekFrom, pos: nat :: pos <= size && Target(from, pos, size) >= 0 ==>
      SeekPos(from, pos, size) == Some(Min(Target(from, pos, size), size))) <==> size <= I64_MAX + 1
  {
    forall from: SeekFrom, pos: nat | pos <= size
      ensures Target(from, pos, size) >= 0 && size <= I64_MAX + 1 ==>
        SeekPos(from, pos, size) == Some(Min(Target(from, pos, size), size))
    {
      SeekExact(from, pos, size);
    }
    if size > I64_MAX + 1 {
      SeekExact(End(I64_MAX), 0, size);
      assert Target(End(I64_MAX), 0, size) >= U64_LIMIT;
    }
  }

  /** On a volume of 2^64 - 1 bytes, seeking to the end and one byte on lands at the start. */
  lemma SeekWraps()
    ensures var size: u64 := U64_LIMIT - 1;
      && SeekPos(End(0), 0, size) == Some(size)
      && SeekPos(Current(1), size, size) == Some(0) && Min(Target(Current(1), size, size), size) == size
  {
    SeekExact(End(0), 0, U64_LIMIT - 1);
    SeekExact(Current(1), U64_LIMIT - 1, U64_LIMIT - 1);
  }
}
