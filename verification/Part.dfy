/** The partition reader of kernel/src/fs/part.rs. */
module Part {
  import opened Bytes
  import opened Blk

  datatype Volume = Volume(startLba: nat, sectors: nat)

  const GUID_ESP: seq<byte> :=
    [0x28, 0x73, 0x2A, 0xC1, 0x1F, 0xF8, 0xD2, 0x11, 0xBA, 0x4B, 0x00, 0xA0, 0xC9, 0x3E, 0xC9, 0x3B]
  const GUID_BASIC: seq<byte> :=
    [0xA2, 0xA0, 0xD0, 0xEB, 0xE5, 0xB9, 0x33, 0x44, 0x87, 0xC0, 0x68, 0xB6, 0xB7, 0x26, 0x99, 0xC7]
  /** "EFI PART" */
  const MAGIC: seq<byte> := [0x45, 0x46, 0x49, 0x20, 0x50, 0x41, 0x52, 0x54]

  // ---------- What a scan means ----------

  /** What the 128 bytes of one GPT entry contribute. */
  function EntryVolume(ent: seq<byte>): seq<Volume>
    requires |ent| == 128
  {
    var ty := ent[0..16];
    var first, last := FromLe(ent[32..40]), FromLe(ent[40..48]);
    if (ty == GUID_ESP || ty == GUID_BASIC) && first <= last
    then [Volume(first, (last - first + 1) % U64_LIMIT)]
    else []
  }

  /** The sector and offset of entry `i`, in the reader's 64-bit arithmetic. */
  function EntryLba(partLba: nat, entSize: nat, i: nat): nat {
    (partLba + i * entSize / SECTOR) % U64_LIMIT
  }

  function EntryOffset(entSize: nat, i: nat): nat {
    i * entSize % SECTOR
  }

  /** What entry `i` contributes on a disk that holds its sector. */
  function EntryAt(d: Disk, partLba: nat, entSize: nat, i: nat): seq<Volume>
    requires EntryLba(partLba, entSize, i) < |d|
  {
    var within := EntryOffset(entSize, i);
    if within + 128 > SECTOR then [] else EntryVolume(d[EntryLba(partLba, entSize, i)][within..within + 128])
  }

  /** Entries `i..max`, up to the first whose sector the disk does not have. */
  function Entries(d: Disk, partLba: nat, entSize: nat, i: nat, max: nat): seq<Volume>
    decreases max - i
  {
    if i >= max || EntryLba(partLba, entSize, i) >= |d| then []
    else EntryAt(d, partLba, entSize, i) + Entries(d, partLba, entSize, i + 1, max)
  }

  function GptVolumesOf(d: Disk, header: Sector): seq<Volume> {
    var partLba, num, entSize := FromLe(header[72..80]), FromLe(header[80..84]), FromLe(header[84..88]);
    if partLba == 0 || num == 0 || entSize < 128 then [] else Entries(d, partLba, entSize, 0, Min(num, 128))
  }

  /** MBR slot `i`, by the bytes of the sector. */
  function SlotVolume(sector: Sector, i: nat): Volume
    requires i < 4
  {
    Volume(FromLe(sector[454 + 16 * i..458 + 16 * i]), FromLe(sector[458 + 16 * i..462 + 16 * i]))
  }

  /** A slot of FAT32 (two kinds) or ESP type with a start and a length. */
  predicate SlotUsed(sector: Sector, i: nat)
    requires i < 4
  {
    && (sector[450 + 16 * i] == 0x0B || sector[450 + 16 * i] == 0x0C || sector[450 + 16 * i] == 0xEF)
    && SlotVolume(sector, i).startLba != 0 && SlotVolume(sector, i).sectors != 0
  }

  /** The used slots from `i` on, in slot order. */
  function UsedSlots(sector: Sector, i: nat): seq<Volume>
    decreases 4 - i
  {
    if i >= 4 then [] else (if SlotUsed(sector, i) then [SlotVolume(sector, i)] else []) + UsedSlots(sector, i + 1)
  }

  predicate Signed(sector: Sector) { sector[510] == 0x55 && sector[511] == 0xAA }

  function MbrVolumesOf(sector: Sector): seq<Volume> {
    if Signed(sector) then UsedSlots(sector, 0) else []
  }

  /** How many of the first `i` slots are used. */
  function UsedBefore(sector: Sector, i: nat): nat
    requires i <= 4
  {
    if i == 0 then 0 else UsedBefore(sector, i - 1) + if SlotUsed(sector, i - 1) then 1 else 0
  }

  lemma {:induction false} SlotPlace(sector: Sector, i: nat, k: nat)
    requires i <= 4
    ensures |UsedSlots(sector, i)| == UsedBefore(sector, 4) - UsedBefore(sector, i)
    ensures i <= k < 4 && SlotUsed(sector, k) ==> var at := UsedBefore(sector, k) - UsedBefore(sector, i);
      0 <= at < |UsedSlots(sector, i)| && UsedSlots(sector, i)[at] == SlotVolume(sector, k)
    decreases 4 - i
  {
    hide SlotUsed, SlotVolume;
    if i < 4 {
      SlotPlace(sector, i + 1, k);
    }
  }

  /** An MBR scan finds as many volumes as a signed sector has used slots, and used slot `k` at the place
      given by the number of used slots before it. */
  lemma MbrMeaning(sector: Sector, k: nat)
    requires k < 4
    ensures |MbrVolumesOf(sector)| == if Signed(sector) then UsedBefore(sector, 4) else 0
    ensures Signed(sector) && SlotUsed(sector, k) ==>
      UsedBefore(sector, k) < |MbrVolumesOf(sector)| && MbrVolumesOf(sector)[UsedBefore(sector, k)] == SlotVolume(sector, k)
  {
    hide SlotUsed, SlotVolume, UsedSlots;
    SlotPlace(sector, 0, k);
  }

  // ---------- The same by the bytes of the disk ----------

  /** An entry counts when its type is the EFI system partition's or the basic data partition's and its last sector
      is not before its first. */
  lemma EntryMeaning(ent: seq<byte>)
    requires |ent| == 128
    ensures var esp := [0x28, 0x73, 0x2A, 0xC1, 0x1F, 0xF8, 0xD2, 0x11, 0xBA, 0x4B, 0x00, 0xA0, 0xC9, 0x3E, 0xC9, 0x3B];
      var basic := [0xA2, 0xA0, 0xD0, 0xEB, 0xE5, 0xB9, 0x33, 0x44, 0x87, 0xC0, 0x68, 0xB6, 0xB7, 0x26, 0x99, 0xC7];
      var first, last := FromLe(ent[32..40]), FromLe(ent[40..48]);
      EntryVolume(ent) ==
        if (ent[0..16] == esp || ent[0..16] == basic) && first <= last
        then [Volume(first, (last + 1 - first) % 0x1_0000_0000_0000_0000)] else []
  {
  }

  /** Entry `i` is read at byte `512 * partLba + entSize * i` of the disk, unless it crosses into another sector;
      then it is skipped. */
  lemma EntryPlace(d: Disk, partLba: nat, entSize: nat, i: nat)
    requires EntryLba(partLba, entSize, i) < |d| && partLba + i * entSize / 512 < U64_LIMIT
    ensures var at := 512 * partLba + i * entSize;
      EntryAt(d, partLba, entSize, i) == if at % 512 > 384 then [] else EntryVolume(Slice(d, at, 128))
  {
    hide EntryVolume, Slice;
    var off := i * entSize;
    var lba, within := partLba + off / 512, off % 512;
    InOneSector(lba, within, partLba, off);
    if within <= 384 {
      SectorBytes(d, lba, within);
    }
  }

  lemma InOneSector(lba: nat, within: nat, partLba: nat, off: nat)
    requires lba == partLba + off / 512 && within == off % 512 && lba < U64_LIMIT
    ensures lba % U64_LIMIT == lba && 512 * partLba + off == 512 * lba + within && (512 * partLba + off) % 512 == within
  {
  }

  lemma SectorBytes(d: Disk, lba: nat, within: nat)
    requires lba < |d| && within <= 384
    ensures Slice(d, 512 * lba + within, 128) == d[lba][within..within + 128]
  {
    var a, b := Slice(d, 512 * lba + within, 128), d[lba][within..within + 128];
    forall k | 0 <= k < 128
      ensures a[k] == b[k]
    {
      PlaceOf(lba, within + k);
    }
  }

  lemma PlaceOf(lba: nat, k: nat)
    requires k < 512
    ensures (512 * lba + k) / 512 == lba && (512 * lba + k) % 512 == k
  {
  }

  /** A sector 1 that begins with the signature is a GPT header: the entries it names, at most 128, in order, up to the
      first whose sector is missing; anything else is left to the MBR. */
  lemma HeaderMeaning(d: Disk)
    requires |d| > 0
    ensures var gpt := |d| > 1 && d[1][0..8] == [0x45, 0x46, 0x49, 0x20, 0x50, 0x41, 0x52, 0x54];
      VolumesOf(d) ==
        if !gpt then MbrVolumesOf(d[0])
        else
          var partLba, num, entSize := FromLe(d[1][72..80]), FromLe(d[1][80..84]), FromLe(d[1][84..88]);
          if partLba == 0 || num == 0 || entSize < 128 then []
          else Entries(d, partLba, entSize, 0, if num < 128 then num else 128)
  {
    hide MbrVolumesOf, Entries, FromLe;
    assert |d| > 1 && MAGIC <= d[1] ==> d[1][0..8] == MAGIC;
  }

  function VolumesOf(d: Disk): seq<Volume> {
    if |d| == 0 then []
    else if |d| > 1 && MAGIC <= d[1] then GptVolumesOf(d, d[1])
    else MbrVolumesOf(d[0])
  }

  // ---------- The scanning loops ----------

  /** `volumes`: while the device succeeds, the scan finds exactly `VolumesOf` the disk. */
  method Volumes(blk: Table, disk: nat) returns (out: seq<Volume>)
    modifies blk`faults
    ensures blk.faults == old(blk.faults) ==> out == if disk < |blk.disks| then VolumesOf(blk.disks[disk]) else []
    ensures blk.faults >= old(blk.faults)
  {
    var sector := new byte[SECTOR](_ => 0);
    var ok := blk.ReadBlock(disk, 0, sector);
    if !ok {
      return [];
    }
    ghost var first := sector[..];
    var header := new byte[SECTOR](_ => 0);
    ok := blk.ReadBlock(disk, 1, header);
    assert sector[..] == first;
    if ok && MAGIC <= header[..] {
      out := GptVolumes(blk, disk, header[..]);
    } else {
      out := MbrVolumes(sector[..]);
    }
  }

  method GptVolumes(blk: Table, disk: nat, header: Sector) returns (out: seq<Volume>)
    requires disk < |blk.disks|
    modifies blk`faults
    ensures blk.faults == old(blk.faults) ==> out == GptVolumesOf(blk.disks[disk], header)
    ensures blk.faults >= old(blk.faults)
  {
    var partLba, num, entSize := FromLe(header[72..80]), FromLe(header[80..84]), FromLe(header[84..88]);
    if partLba == 0 || num == 0 || entSize < 128 {
      return [];
    }
    out := ScanEntries(blk, disk, partLba, entSize, Min(num, 128));
  }

  method ScanEntries(blk: Table, disk: nat, partLba: nat, entSize: nat, max: nat) returns (out: seq<Volume>)
    requires disk < |blk.disks|
    modifies blk`faults
    ensures blk.faults == old(blk.faults) ==> out == Entries(blk.disks[disk], partLba, entSize, 0, max)
    ensures blk.faults >= old(blk.faults)
  {
    hide Entries, EntryVolume;
    out := [];
    ghost var d := blk.disks[disk];
    for i := 0 to max
      invariant blk.faults == old(blk.faults)
      invariant Entries(d, partLba, entSize, 0, max) == out + Entries(d, partLba, entSize, i, max)
    {
      var off := i * entSize;
      var ok, found := ScanEntry(blk, disk, (partLba + off / SECTOR) % U64_LIMIT, off % SECTOR);
      if !ok {
        EntriesEnd(d, partLba, entSize, i, max);
        break;
      }
      assert found == EntryAt(d, partLba, entSize, i);
      EntriesStep(d, partLba, entSize, i, max, out);
      out := out + found;
    }
    EntriesEnd(d, partLba, entSize, max, max);
  }

  lemma EntriesEnd(d: Disk, partLba: nat, entSize: nat, i: nat, max: nat)
    ensures i >= max || EntryLba(partLba, entSize, i) >= |d| ==> Entries(d, partLba, entSize, i, max) == []
  {
  }

  /** One turn of the entry loop. */
  method ScanEntry(blk: Table, disk: nat, lba: nat, within: nat) returns (ok: bool, found: seq<Volume>)
    requires disk < |blk.disks|
    modifies blk`faults
    ensures !ok ==> blk.faults > old(blk.faults) || (lba >= |blk.disks[disk]| && blk.faults == old(blk.faults))
    ensures ok ==> blk.faults == old(blk.faults) && lba < |blk.disks[disk]|
    ensures ok ==> found == if within + 128 > SECTOR then [] else EntryVolume(blk.disks[disk][lba][within..within + 128])
  {
    found := [];
    var sector := new byte[SECTOR](_ => 0);
    ok := blk.ReadBlock(disk, lba, sector);
    if ok && within + 128 <= SECTOR {
      var s := sector[..];
      found := EntryVolume(s[within..within + 128]);
    }
  }

  lemma EntriesStep(d: Disk, partLba: nat, entSize: nat, i: nat, max: nat, out: seq<Volume>)
    requires i < max && EntryLba(partLba, entSize, i) < |d|
    ensures out + Entries(d, partLba, entSize, i, max)
      == out + EntryAt(d, partLba, entSize, i) + Entries(d, partLba, entSize, i + 1, max)
  {
    Associative(out, EntryAt(d, partLba, entSize, i), Entries(d, partLba, entSize, i + 1, max));
  }

  lemma Associative<T>(a: seq<T>, b: seq<T>, c: seq<T>)
    ensures a + (b + c) == a + b + c
  {
  }

  /** One turn of the MBR loop. */
  method ReadSlot(sector: Sector, i: nat) returns (found: seq<Volume>)
    requires i < 4
    ensures found == if SlotUsed(sector, i) then [SlotVolume(sector, i)] else []
    ensures var at := 446 + 16 * i;
      var start, count := FromLe(sector[at + 8..at + 12]), FromLe(sector[at + 12..at + 16]);
      found == if (sector[at + 4] == 0x0B || sector[at + 4] == 0x0C || sector[at + 4] == 0xEF) && start != 0 && count != 0
               then [Volume(start, count)] else []
  {
    hide FromLe;
    var e := sector[446 + i * 16..446 + (i + 1) * 16];
    assert e[4] == sector[450 + 16 * i];
    assert e[8..12] == sector[454 + 16 * i..458 + 16 * i];
    assert e[12..16] == sector[458 + 16 * i..462 + 16 * i];
    var ty := e[4];
    if ty != 0x0B && ty != 0x0C && ty != 0xEF {
      return [];
    }
    var start, count := FromLe(e[8..12]), FromLe(e[12..16]);
    if start == 0 || count == 0 {
      return [];
    }
    found := [Volume(start, count)];
  }

  method MbrVolumes(sector: Sector) returns (out: seq<Volume>)
    ensures out == MbrVolumesOf(sector)
  {
    hide SlotUsed, SlotVolume, FromLe;
    if sector[510] != 0x55 || sector[511] != 0xAA {
      return [];
    }
    out := [];
    for i := 0 to 4
      invariant UsedSlots(sector, 0) == out + UsedSlots(sector, i)
    {
      var found := ReadSlot(sector, i);
      Associative(out, found, UsedSlots(sector, i + 1));
      out := out + found;
    }
  }
}
