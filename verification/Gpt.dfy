/** The GPT writer of kernel/src/fs/gpt.rs, and its agreement with the reader in Part. */
module Gpt {
  import opened Bytes
  import opened Blk
  import Crc
  import Part

  const ESP_START: nat := 2048
  const ARRAY_SECTORS: nat := 32
  const MIN_SECTORS: nat := 131072

  function LastUsable(sectors: nat): (r: Option<nat>)
    ensures r.None? <==> sectors * SECTOR < 64 * 1024 * 1024
    ensures r.Some? ==> r.value + 34 == sectors && r.value >= ESP_START
  {
    if sectors < MIN_SECTORS then None else Some(sectors - 1 - (ARRAY_SECTORS + 1))
  }

  // ---------- Layouts ----------

  /** The first 16 bytes of a header: signature, revision 1.0 and header size. */
  function Identity(): (s: seq<byte>)
    ensures |s| == 16
  {
    Part.MAGIC + ToLe(0x1_0000, 4) + ToLe(92, 4)
  }

  /** Bytes 20..72: reserved, this header, the other one, first and last usable sector, disk GUID. */
  function Placement(my: nat, alt: nat, lastUsable: nat, guid: seq<byte>): (s: seq<byte>)
    ensures |s| == 36 + |guid|
  {
    Zeros(4) + ToLe(my, 8) + ToLe(alt, 8) + ToLe(34, 8) + ToLe(lastUsable, 8) + guid
  }

  /** Bytes 72..92: where the entry array is, its shape and its CRC. */
  function TableRef(part: nat, arrayCrc: nat): (s: seq<byte>)
    ensures |s| == 20
  {
    ToLe(part, 8) + ToLe(128, 4) + ToLe(128, 4) + ToLe(arrayCrc, 4)
  }

  /** The 92 header bytes of UEFI 2.10, section 5.3.2, around a given CRC field. */
  function Header(crc: nat, my: nat, alt: nat, part: nat, lastUsable: nat, guid: seq<byte>, arrayCrc: nat): (s: seq<byte>)
    ensures |s| == 76 + |guid|
  {
    Identity() + ToLe(crc, 4) + Placement(my, alt, lastUsable, guid) + TableRef(part, arrayCrc)
  }

  /** A header sector around a given CRC field. */
  function HeaderSector(crc: nat, my: nat, alt: nat, part: nat, lastUsable: nat, guid: seq<byte>, arrayCrc: nat): Sector
    requires |guid| == 16
  {
    Header(crc, my, alt, part, lastUsable, guid, arrayCrc) + Zeros(420)
  }

  /** The CRC a header must carry: that of its 92 bytes with the CRC field zeroed. */
  function HeaderCrc(my: nat, alt: nat, part: nat, lastUsable: nat, guid: seq<byte>, arrayCrc: nat): (c: nat)
    ensures c < U32_LIMIT
  {
    Crc.Crc32(Header(0, my, alt, part, lastUsable, guid, arrayCrc))
  }

  /** UTF-16LE "COELEO" */
  const NAME: seq<byte> := [0x43, 0, 0x4F, 0, 0x45, 0, 0x4C, 0, 0x45, 0, 0x4F, 0]

  function Entry(unique: seq<byte>, first: nat, last: nat): (s: seq<byte>)
    ensures |s| == 112 + |unique|
  {
    Part.GUID_ESP + unique + ToLe(first, 8) + ToLe(last, 8) + Zeros(8) + NAME + Zeros(60)
  }

  /** Status, start CHS, type 0xEE and end CHS of the protective slot. */
  const MBR_SLOT: seq<byte> := [0x00, 0x00, 0x02, 0x00, 0xEE, 0xFF, 0xFF, 0xFF]

  function ProtectiveMbr(sectors: nat): Sector {
    var size := Min(Max(sectors - 1, 0), U32_LIMIT - 1);
    Zeros(446) + MBR_SLOT + ToLe(1, 4) + ToLe(size, 4)
    + Zeros(48) + [0x55, 0xAA]
  }

  /** Sector `i` of an entry array whose only entry is `entry`. */
  function ArraySector(entry: seq<byte>, i: nat): Sector
    requires |entry| == 128
  {
    if i == 0 then entry + Zeros(384) else Zeros(SECTOR)
  }

  ghost predicate HasArray(d: Disk, start: nat, entry: seq<byte>)
    requires |entry| == 128
  {
    && start + ARRAY_SECTORS <= |d|
    && forall i: nat :: i < ARRAY_SECTORS ==> d[start + i] == ArraySector(entry, i)
  }

  /** The bytes of `n` sectors from `start`, in order. */
  function Flat(d: Disk, start: nat, n: nat): (s: seq<byte>)
    requires start + n <= |d|
    ensures |s| == n * SECTOR
    decreases n
  {
    if n == 0 then [] else Flat(d, start, n - 1) + d[start + n - 1]
  }

  /** The 16384 bytes of an entry array whose only entry is `entry`. */
  function ArrayBytes(entry: seq<byte>): (s: seq<byte>)
    requires |entry| == 128
    ensures |s| == 16384
  {
    entry + Zeros(16256)
  }

  function ArrayCrc(entry: seq<byte>): (c: nat)
    requires |entry| == 128
    ensures c < U32_LIMIT
  {
    Crc.Crc32(ArrayBytes(entry))
  }

  /** A disk carrying these two headers, and this entry in both arrays. */
  ghost predicate HasLabel(d: Disk, primary: Sector, backup: Sector, entry: seq<byte>)
    requires |entry| == 128
  {
    && |d| >= MIN_SECTORS
    && d[0] == ProtectiveMbr(|d|)
    && d[1] == primary
    && d[|d| - 1] == backup
    && HasArray(d, 2, entry)
    && HasArray(d, |d| - 1 - ARRAY_SECTORS, entry)
  }

  /** The three checksums of a label. */
  datatype Sums = Sums(primary: nat, backup: nat, entries: nat)

  /** The label `write_esp` writes, for given checksums: one ESP from sector 2048 to the last usable one. */
  ghost predicate HasEsp(d: Disk, diskGuid: seq<byte>, partGuid: seq<byte>, sums: Sums)
    requires |diskGuid| == 16 && |partGuid| == 16
  {
    && |d| >= MIN_SECTORS
    && HasLabel(d,
      HeaderSector(sums.primary, 1, |d| - 1, 2, |d| - 34, diskGuid, sums.entries),
      HeaderSector(sums.backup, |d| - 1, 1, |d| - 33, |d| - 34, diskGuid, sums.entries),
      Entry(partGuid, ESP_START, |d| - 34))
  }

  /** The checksums the UEFI specification requires of that label on a disk of `n` sectors. */
  function RightSums(n: nat, diskGuid: seq<byte>, partGuid: seq<byte>): Sums
    requires |partGuid| == 16 && n >= MIN_SECTORS
  {
    var crc := ArrayCrc(Entry(partGuid, ESP_START, n - 34));
    Sums(HeaderCrc(1, n - 1, 2, n - 34, diskGuid, crc), HeaderCrc(n - 1, 1, n - 33, n - 34, diskGuid, crc), crc)
  }

  // ---------- Building the sectors ----------

  /** Store `src` at `off`, right after the bytes filled so far; the rest of the buffer is still zero. */
  method Append(buf: array<byte>, off: nat, src: seq<byte>, ghost prefix: seq<byte>, ghost part: seq<byte>)
    requires off == |prefix| + |part| && off + |src| <= buf.Length
    requires buf[..] == prefix + part + Zeros(buf.Length - off)
    modifies buf
    ensures buf[..] == prefix + (part + src) + Zeros(buf.Length - off - |src|)
  {
    ghost var before := buf[..];
    CopyInto(buf, off, src);
    assert buf[..] == Splice(before, off, src);
    AppendField(prefix + part, src, buf.Length - off);
  }

  lemma AppendField(prefix: seq<byte>, src: seq<byte>, n: nat)
    requires |src| <= n
    ensures Splice(prefix + Zeros(n), |prefix|, src) == prefix + src + Zeros(n - |src|)
  {
  }

  method FillHeader(buf: array<byte>, my: nat, alt: nat, part: nat, lastUsable: nat, guid: seq<byte>, arrayCrc: nat)
    requires buf.Length == SECTOR && |guid| == 16
    modifies buf
    ensures buf[..] == HeaderSector(HeaderCrc(my, alt, part, lastUsable, guid, arrayCrc), my, alt, part, lastUsable, guid, arrayCrc)
  {
    FillFields(buf, my, alt, part, lastUsable, guid, arrayCrc);
    ghost var h := Header(0, my, alt, part, lastUsable, guid, arrayCrc);
    assert buf[..92] == h;
    var register := Crc.UpdateLoop(Crc.ONES, buf[..92]);
    Crc.UpdateRange(Crc.ONES, h);
    var crc := Crc.ONES - register;
    assert crc == Crc.Crc32(h);
    CopyInto(buf, 16, ToLe(crc, 4));
    Sealed(crc, my, alt, part, lastUsable, guid, arrayCrc);
    assert buf[..] == Splice(h + Zeros(420), 16, ToLe(crc, 4));
  }

  /** Storing the CRC field changes nothing else of the header. */
  lemma Sealed(crc: nat, my: nat, alt: nat, part: nat, lastUsable: nat, guid: seq<byte>, arrayCrc: nat)
    requires |guid| == 16
    ensures Splice(Header(0, my, alt, part, lastUsable, guid, arrayCrc) + Zeros(420), 16, ToLe(crc, 4))
      == Header(crc, my, alt, part, lastUsable, guid, arrayCrc) + Zeros(420)
  {
    var a, p, t := Identity(), Placement(my, alt, lastUsable, guid), TableRef(part, arrayCrc);
    SpliceMiddle(a, ToLe(0, 4), p, t, Zeros(420), ToLe(crc, 4));
  }

  lemma SpliceMiddle(a: seq<byte>, b: seq<byte>, c: seq<byte>, d: seq<byte>, e: seq<byte>, x: seq<byte>)
    requires |x| == |b|
    ensures Splice(a + b + c + d + e, |a|, x) == a + x + c + d + e
  {
  }

  method FillFields(buf: array<byte>, my: nat, alt: nat, part: nat, lastUsable: nat, guid: seq<byte>, arrayCrc: nat)
    requires buf.Length == SECTOR && |guid| == 16
    modifies buf
    ensures buf[..] == Header(0, my, alt, part, lastUsable, guid, arrayCrc) + Zeros(420)
  {
    forall i | 0 <= i < SECTOR {
      buf[i] := 0;
    }
    assert buf[..] == Zeros(SECTOR);
    FillIdentity(buf);
    ghost var p := Identity() + ToLe(0, 4);
    FillPlacement(buf, my, alt, lastUsable, guid, p);
    p := p + Placement(my, alt, lastUsable, guid);
    FillTableRef(buf, part, arrayCrc, p);
  }

  method FillIdentity(buf: array<byte>)
    requires buf.Length == SECTOR && buf[..] == Zeros(SECTOR)
    modifies buf
    ensures buf[..] == Identity() + ToLe(0, 4) + Zeros(492)
  {
    Append(buf, 0, Part.MAGIC, [], []);
    ghost var q := [] + Part.MAGIC;
    Append(buf, 8, ToLe(0x1_0000, 4), [], q);
    q := q + ToLe(0x1_0000, 4);
    Append(buf, 12, ToLe(92, 4), [], q);
    IdentityGap();
  }

  /** The CRC field starts out as part of the zeroed remainder. */
  lemma IdentityGap()
    ensures [] + ([] + Part.MAGIC + ToLe(0x1_0000, 4) + ToLe(92, 4)) + Zeros(496) == Identity() + ToLe(0, 4) + Zeros(492)
  {
    LeZero(4);
    assert [] + Part.MAGIC == Part.MAGIC;
  }

  lemma {:induction false} LeZero(w: nat)
    ensures ToLe(0, w) == Zeros(w)
  {
    if w > 0 {
      LeZero(w - 1);
    }
  }

  method FillPlacement(buf: array<byte>, my: nat, alt: nat, lastUsable: nat, guid: seq<byte>, ghost p: seq<byte>)
    requires buf.Length == SECTOR && |guid| == 16 && |p| == 20 && buf[..] == p + Zeros(492)
    modifies buf
    ensures buf[..] == p + Placement(my, alt, lastUsable, guid) + Zeros(440)
  {
    ghost var q := Zeros(4);
    Append(buf, 24, ToLe(my, 8), p, q);
    q := q + ToLe(my, 8);
    Append(buf, 32, ToLe(alt, 8), p, q);
    q := q + ToLe(alt, 8);
    Append(buf, 40, ToLe(34, 8), p, q);
    q := q + ToLe(34, 8);
    Append(buf, 48, ToLe(lastUsable, 8), p, q);
    q := q + ToLe(lastUsable, 8);
    Append(buf, 56, guid, p, q);
  }

  method FillTableRef(buf: array<byte>, part: nat, arrayCrc: nat, ghost p: seq<byte>)
    requires buf.Length == SECTOR && |p| == 72 && buf[..] == p + Zeros(440)
    modifies buf
    ensures buf[..] == p + TableRef(part, arrayCrc) + Zeros(420)
  {
    Append(buf, 72, ToLe(part, 8), p, []);
    ghost var q := [] + ToLe(part, 8);
    assert q == ToLe(part, 8);
    Append(buf, 80, ToLe(128, 4), p, q);
    q := q + ToLe(128, 4);
    Append(buf, 84, ToLe(128, 4), p, q);
    q := q + ToLe(128, 4);
    Append(buf, 88, ToLe(arrayCrc, 4), p, q);
  }

  /** `partition_entry` */
  method PartitionEntry(unique: seq<byte>, first: nat, last: nat) returns (e: array<byte>)
    requires |unique| == 16
    ensures fresh(e) && e[..] == Entry(unique, first, last)
  {
    e := new byte[128](_ => 0);
    assert e[..] == [] + Part.GUID_ESP[..0] + Zeros(128);
    Append(e, 0, Part.GUID_ESP, [], []);
    ghost var q := [] + Part.GUID_ESP;
    Append(e, 16, unique, [], q);
    q := q + unique;
    Append(e, 32, ToLe(first, 8), [], q);
    q := q + ToLe(first, 8);
    Append(e, 40, ToLe(last, 8), [], q);
    q := q + ToLe(last, 8);
    EntryGap(unique, first, last);
    q := q + Zeros(8);
    for i := 0 to 6
      invariant e[..] == q + NAME[..2 * i] + Zeros(72 - 2 * i)
    {
      Append(e, 56 + i * 2, [NAME[2 * i], 0], q, NAME[..2 * i]);
      assert NAME[..2 * i] + [NAME[2 * i], 0] == NAME[..2 * (i + 1)];
    }
    assert NAME[..12] == NAME;
  }

  lemma EntryGap(unique: seq<byte>, first: nat, last: nat)
    requires |unique| == 16
    ensures [] + ([] + Part.GUID_ESP + unique + ToLe(first, 8) + ToLe(last, 8)) + Zeros(80)
      == ([] + Part.GUID_ESP + unique + ToLe(first, 8) + ToLe(last, 8) + Zeros(8)) + NAME[..0] + Zeros(72)
    ensures ([] + Part.GUID_ESP + unique + ToLe(first, 8) + ToLe(last, 8) + Zeros(8)) + NAME + Zeros(60)
      == Entry(unique, first, last)
  {
    assert [] + Part.GUID_ESP == Part.GUID_ESP;
  }

  /** `write_protective_mbr` */
  method WriteProtectiveMbr(blk: Table, disk: nat, sectors: nat) returns (ok: bool)
    modifies blk
    ensures Placed(old(blk.disks), blk.disks, disk, 0, ProtectiveMbr(sectors), ok, old(blk.faults), blk.faults)
  {
    var mbr := new byte[SECTOR](_ => 0);
    FillMbr(mbr, Min(Max(sectors - 1, 0), U32_LIMIT - 1));
    ok := blk.WriteBlock(disk, 0, mbr[..]);
  }

  method FillMbr(mbr: array<byte>, size: nat)
    requires mbr.Length == SECTOR && mbr[..] == Zeros(SECTOR)
    modifies mbr
    ensures mbr[..] == Zeros(446) + MBR_SLOT + ToLe(1, 4) + ToLe(size, 4) + Zeros(48) + [0x55, 0xAA]
  {
    ghost var p := Zeros(446);
    assert mbr[..] == p + [] + Zeros(66);
    Append(mbr, 446, MBR_SLOT, p, []);
    ghost var q := [] + MBR_SLOT;
    Append(mbr, 454, ToLe(1, 4), p, q);
    q := q + ToLe(1, 4);
    Append(mbr, 458, ToLe(size, 4), p, q);
    q := q + ToLe(size, 4);
    MbrGap(p, q);
    q := q + Zeros(48);
    Append(mbr, 510, [0x55, 0xAA], p, q);
    MbrShape(p, size);
  }

  lemma MbrGap(p: seq<byte>, q: seq<byte>)
    ensures p + q + Zeros(50) == p + (q + Zeros(48)) + Zeros(2)
  {
  }

  lemma MbrShape(p: seq<byte>, size: nat)
    ensures p + ([] + MBR_SLOT + ToLe(1, 4) + ToLe(size, 4) + Zeros(48) + [0x55, 0xAA]) + Zeros(0)
      == p + MBR_SLOT + ToLe(1, 4) + ToLe(size, 4) + Zeros(48) + [0x55, 0xAA]
  {
  }

  /** The outcome of one sector write. */
  ghost predicate Placed(ds: seq<Disk>, es: seq<Disk>, disk: nat, lba: nat, sector: Sector, ok: bool, f: nat, g: nat) {
    && (ok ==> disk < |ds| && lba < |ds[disk]| && es == Put(ds, disk, lba, sector) && f == g)
    && (!ok ==> g > f || disk >= |ds| || lba >= |ds[disk]|)
    && OnlyChanged(ds, es, disk, lba, lba + 1)
  }

  /** `write_array` */
  method WriteArray(blk: Table, disk: nat, start: nat, entry: seq<byte>) returns (ok: bool)
    requires |entry| == 128 && disk < |blk.disks|
    modifies blk
    ensures OnlyChanged(old(blk.disks), blk.disks, disk, start, start + ARRAY_SECTORS)
    ensures ok ==> HasArray(blk.disks[disk], start, entry) && blk.faults == old(blk.faults)
    ensures !ok ==> blk.faults > old(blk.faults) || start + ARRAY_SECTORS > |old(blk.disks)[disk]|
  {
    for i := 0 to ARRAY_SECTORS
      invariant blk.faults == old(blk.faults)
      invariant OnlyChanged(old(blk.disks), blk.disks, disk, start, start + ARRAY_SECTORS)
      invariant start + i <= |blk.disks[disk]| || i == 0
      invariant forall k: nat :: k < i ==> blk.disks[disk][start + k] == ArraySector(entry, k)
    {
      var sec := new byte[SECTOR](_ => 0);
      if i == 0 {
        CopyInto(sec, 0, entry);
      }
      assert sec[..] == ArraySector(entry, i);
      ok := blk.WriteBlock(disk, start + i, sec[..]);
      if !ok {
        return;
      }
    }
    ok := true;
  }

  /** `array_crc32` */
  method ArrayCrc32(entry: seq<byte>) returns (crc: nat)
    requires |entry| == 128
    ensures crc == ArrayCrc(entry)
  {
    hide Crc.Update;
    var register := Crc.ONES;
    var sec := new byte[SECTOR](_ => 0);
    CopyInto(sec, 0, entry);
    ghost var done := entry + Zeros(384);
    assert sec[..] == done;
    register := Crc.UpdateLoop(register, sec[..]);
    var zero := new byte[SECTOR](_ => 0);
    for i := 1 to ARRAY_SECTORS
      invariant done == entry + Zeros(512 * i - 128)
      invariant register == Crc.Update(Crc.ONES, done)
      invariant zero[..] == Zeros(SECTOR)
    {
      register := Crc.UpdateLoop(register, zero[..]);
      Crc.UpdateStreams(Crc.ONES, done, Zeros(SECTOR));
      done := done + Zeros(SECTOR);
    }
    assert done == ArrayBytes(entry);
    Crc.UpdateRange(Crc.ONES, done);
    crc := Crc.ONES - register;
  }

  /** `write_esp`. The two GUIDs come from `make_guid`, which mixes the clock. */
  method WriteEsp(blk: Table, disk: nat, diskGuid: seq<byte>, partGuid: seq<byte>) returns (ok: bool)
    requires |diskGuid| == 16 && |partGuid| == 16
    modifies blk
    ensures ok ==>
      && blk.faults == old(blk.faults)
      && disk < |blk.disks| && |blk.disks[disk]| >= MIN_SECTORS
      && HasEsp(blk.disks[disk], diskGuid, partGuid, RightSums(|blk.disks[disk]|, diskGuid, partGuid))
    ensures !ok ==>
      || blk.faults > old(blk.faults)
      || disk >= |old(blk.disks)|
      || |old(blk.disks)[disk]| < MIN_SECTORS
    ensures disk < |old(blk.disks)| ==> OnlyChanged(old(blk.disks), blk.disks, disk, 0, |old(blk.disks)[disk]|)
  {
    hide HeaderSector, HeaderCrc, Entry, ArrayCrc, HasLabel;
    if disk >= |blk.disks| {
      return false;
    }
    var sectors := |blk.disks[disk]|;
    var lu := LastUsable(sectors);
    if lu.None? || lu.value < ESP_START {
      return false;
    }
    var lastUsable := lu.value;
    var last := sectors - 1;
    var backupArray := last - ARRAY_SECTORS;
    var e := PartitionEntry(partGuid, ESP_START, lastUsable);
    var entry := e[..];
    var arrayCrc := ArrayCrc32(entry);

    var primary, c1 := MakeHeader(1, last, 2, lastUsable, diskGuid, arrayCrc);
    var backup, c2 := MakeHeader(last, 1, backupArray, lastUsable, diskGuid, arrayCrc);
    ok := WriteLabel(blk, disk, sectors, primary, backup, entry);
    assert Sums(c1, c2, arrayCrc) == RightSums(sectors, diskGuid, partGuid);
  }

  method MakeHeader(my: nat, alt: nat, part: nat, lastUsable: nat, guid: seq<byte>, arrayCrc: nat)
    returns (s: Sector, ghost crc: nat)
    requires |guid| == 16
    ensures crc == HeaderCrc(my, alt, part, lastUsable, guid, arrayCrc)
    ensures s == HeaderSector(crc, my, alt, part, lastUsable, guid, arrayCrc)
  {
    var buf := new byte[SECTOR](_ => 0);
    FillHeader(buf, my, alt, part, lastUsable, guid, arrayCrc);
    s := buf[..];
    crc := HeaderCrc(my, alt, part, lastUsable, guid, arrayCrc);
  }

  /** The five ordered writes of `write_esp`. */
  method WriteLabel(blk: Table, disk: nat, sectors: nat, primary: Sector, backup: Sector, entry: seq<byte>)
    returns (ok: bool)
    requires |entry| == 128 && disk < |blk.disks| && sectors == |blk.disks[disk]| && sectors >= MIN_SECTORS
    modifies blk
    ensures !ok ==> blk.faults > old(blk.faults)
    ensures ok ==>
      && blk.faults == old(blk.faults) && disk < |blk.disks|
      && |blk.disks[disk]| == sectors && HasLabel(blk.disks[disk], primary, backup, entry)
    ensures OnlyChanged(old(blk.disks), blk.disks, disk, 0, sectors)
  {
    hide ProtectiveMbr, ArraySector;
    var last := sectors - 1;
    ok := WriteProtectiveMbr(blk, disk, sectors);
    if !ok {
      return;
    }
    ok := blk.WriteBlock(disk, 1, primary);
    if !ok {
      return;
    }
    ok := WriteArray(blk, disk, 2, entry);
    if !ok {
      return;
    }
    ghost var d2 := blk.disks[disk];
    assert d2[0] == ProtectiveMbr(sectors) && d2[1] == primary && HasArray(d2, 2, entry);
    ok := WriteArray(blk, disk, last - ARRAY_SECTORS, entry);
    if !ok {
      return;
    }
    ghost var d3 := blk.disks[disk];
    assert d3[0] == ProtectiveMbr(sectors) && d3[1] == primary && HasArray(d3, 2, entry);
    ok := blk.WriteBlock(disk, last, backup);
  }

  // ---------- What the label means ----------

  /** The stored array CRC is the CRC of the 16384 bytes the array takes on the disk. */
  lemma ArrayCrcOnDisk(d: Disk, start: nat, entry: seq<byte>)
    requires |entry| == 128 && HasArray(d, start, entry)
    ensures ArrayCrc(entry) == Crc.Crc32(Flat(d, start, ARRAY_SECTORS))
  {
    FlatArray(d, start, entry, ARRAY_SECTORS);
    assert Zeros(16256) == Zeros(512 * ARRAY_SECTORS - 128);
  }

  lemma {:induction false} FlatArray(d: Disk, start: nat, entry: seq<byte>, n: nat)
    requires |entry| == 128 && HasArray(d, start, entry) && 1 <= n <= ARRAY_SECTORS
    ensures Flat(d, start, n) == entry + Zeros(512 * n - 128)
    decreases n
  {
    assert Flat(d, start, n) == Flat(d, start, n - 1) + ArraySector(entry, n - 1);
    if n > 1 {
      FlatArray(d, start, entry, n - 1);
    } else {
      assert Flat(d, start, 0) == [];
    }
  }

  /** The stored header CRC covers the 92 header bytes with the CRC field zeroed. */
  lemma HeaderCrcHolds(my: nat, alt: nat, part: nat, lastUsable: nat, guid: seq<byte>, arrayCrc: nat)
    requires |guid| == 16
    ensures var crc := HeaderCrc(my, alt, part, lastUsable, guid, arrayCrc);
      var s := HeaderSector(crc, my, alt, part, lastUsable, guid, arrayCrc);
      FromLe(s[16..20]) == crc == Crc.Crc32(s[..16] + Zeros(4) + s[20..92])
  {
    var crc := HeaderCrc(my, alt, part, lastUsable, guid, arrayCrc);
    var p, t := Placement(my, alt, lastUsable, guid), TableRef(part, arrayCrc);
    HeaderSlices(Identity(), ToLe(crc, 4), p, t, Zeros(420));
    Le32RoundTrip(crc);
    LeZero(4);
    Regroup(Identity(), ToLe(0, 4), p, t);
  }

  lemma Regroup<T>(a: seq<T>, b: seq<T>, c: seq<T>, d: seq<T>)
    ensures a + b + c + d == a + b + (c + d)
  {
  }

  lemma HeaderSlices(a: seq<byte>, c: seq<byte>, p: seq<byte>, t: seq<byte>, z: seq<byte>)
    requires |a| == 16 && |c| == 4 && |p| == 52 && |t| == 20
    ensures var s := a + c + p + t + z;
      s[..16] == a && s[16..20] == c && s[20..92] == p + t && s[72..92] == t
  {
  }

  lemma TableSlices(s: seq<byte>, part: seq<byte>, a: seq<byte>, b: seq<byte>, c: seq<byte>)
    requires |s| == SECTOR && s[72..92] == part + a + b + c
    requires |part| == 8 && |a| == 4 && |b| == 4 && |c| == 4
    ensures s[72..80] == part && s[80..84] == a && s[84..88] == b
  {
    var t := s[72..92];
    assert t[0..8] == part && t[8..12] == a && t[12..16] == b;
    SubSlice(s, 72, 92, 0, 8);
    SubSlice(s, 72, 92, 8, 12);
    SubSlice(s, 72, 92, 12, 16);
  }

  lemma SubSlice<T>(s: seq<T>, lo: nat, hi: nat, a: nat, b: nat)
    requires a <= b && lo + b <= hi <= |s|
    ensures s[lo..hi][a..b] == s[lo + a..lo + b]
  {
    var x, y := s[lo..hi][a..b], s[lo + a..lo + b];
    forall i | 0 <= i < b - a
      ensures x[i] == y[i]
    {
    }
  }

  /** What the reader takes from a header the writer made. */
  lemma HeaderRead(crc: nat, my: nat, alt: nat, part: nat, lastUsable: nat, guid: seq<byte>, arrayCrc: nat)
    requires |guid| == 16 && part < U64_LIMIT
    ensures var s := HeaderSector(crc, my, alt, part, lastUsable, guid, arrayCrc);
      && Part.MAGIC <= s
      && FromLe(s[72..80]) == part && FromLe(s[80..84]) == 128 && FromLe(s[84..88]) == 128
  {
    var s := HeaderSector(crc, my, alt, part, lastUsable, guid, arrayCrc);
    HeaderSlices(Identity(), ToLe(crc, 4), Placement(my, alt, lastUsable, guid), TableRef(part, arrayCrc), Zeros(420));
    TableSlices(s, ToLe(part, 8), ToLe(128, 4), ToLe(128, 4), ToLe(arrayCrc, 4));
    Le64RoundTrip(part);
    Le32RoundTrip(128);
    assert s[..16] == Identity() && Identity()[..8] == Part.MAGIC;
  }

  /** What the reader takes from the entry the writer made. */
  lemma EntryRead(unique: seq<byte>, first: nat, last: nat)
    requires |unique| == 16 && first <= last < U64_LIMIT - 1
    ensures Part.EntryVolume(Entry(unique, first, last)) == [Part.Volume(first, last - first + 1)]
  {
    hide ToLe, FromLe, Part.EntryVolume;
    EntrySlices(Part.GUID_ESP, unique, ToLe(first, 8), ToLe(last, 8), Zeros(8), NAME, Zeros(60));
    Le64RoundTrip(first);
    Le64RoundTrip(last);
    EspEntry(Entry(unique, first, last), first, last);
  }

  lemma EspEntry(e: seq<byte>, first: nat, last: nat)
    requires |e| == 128 && first <= last < U64_LIMIT - 1
    requires e[0..16] == Part.GUID_ESP && FromLe(e[32..40]) == first && FromLe(e[40..48]) == last
    ensures Part.EntryVolume(e) == [Part.Volume(first, last - first + 1)]
  {
    hide FromLe;
  }

  lemma EntrySlices(g: seq<byte>, u: seq<byte>, f: seq<byte>, l: seq<byte>, a: seq<byte>, n: seq<byte>, z: seq<byte>)
    requires |g| == 16 && |u| == 16 && |f| == 8 && |l| == 8
    ensures var e := g + u + f + l + a + n + z;
      e[0..16] == g && e[32..40] == f && e[40..48] == l
  {
  }

  /** Entry `i` of an installed array: the ESP first, then nothing. */
  lemma EntryInArray(d: Disk, entry: seq<byte>, i: nat)
    requires |entry| == 128 && HasArray(d, 2, entry) && i < 128
    ensures Part.EntryLba(2, 128, i) == 2 + i / 4 < |d|
    ensures Part.EntryAt(d, 2, 128, i) == if i == 0 then Part.EntryVolume(entry) else []
  {
    var lba, within := Part.EntryLba(2, 128, i), Part.EntryOffset(128, i);
    assert lba == 2 + i / 4 && within == i % 4 * 128;
    assert d[2 + i / 4] == ArraySector(entry, i / 4);
    var e := d[lba][within..within + 128];
    if i == 0 {
      assert e == entry;
    } else {
      assert e[0..16] == Zeros(16);
      assert Part.GUID_ESP[0] != 0 && Part.GUID_BASIC[0] != 0;
    }
  }

  lemma {:induction false} EmptyTail(d: Disk, entry: seq<byte>, i: nat)
    requires |entry| == 128 && HasArray(d, 2, entry) && 1 <= i <= 128
    ensures Part.Entries(d, 2, 128, i, 128) == []
    decreases 128 - i
  {
    if i < 128 {
      EntryInArray(d, entry, i);
      EmptyTail(d, entry, i + 1);
    }
  }

  lemma LabelScan(d: Disk, primary: Sector, backup: Sector, entry: seq<byte>)
    requires |entry| == 128 && HasLabel(d, primary, backup, entry)
    requires Part.MAGIC <= primary
    requires FromLe(primary[72..80]) == 2 && FromLe(primary[80..84]) == 128 && FromLe(primary[84..88]) == 128
    ensures Part.VolumesOf(d) == Part.EntryVolume(entry)
  {
    EntryInArray(d, entry, 0);
    EmptyTail(d, entry, 1);
  }

  /** Writer and reader agree: an installed disk scans as exactly one volume, the usable space. */
  lemma InstalledVolume(d: Disk, diskGuid: seq<byte>, partGuid: seq<byte>, sums: Sums)
    requires |diskGuid| == 16 && |partGuid| == 16 && |d| < U64_LIMIT
    requires HasEsp(d, diskGuid, partGuid, sums)
    ensures Part.VolumesOf(d) == [Part.Volume(ESP_START, |d| - 34 - ESP_START + 1)]
  {
    hide HeaderSector, Entry, ProtectiveMbr, HasArray, Part.VolumesOf, Part.EntryVolume;
    var last, lastUsable := |d| - 1, |d| - 34;
    HeaderRead(sums.primary, 1, last, 2, lastUsable, diskGuid, sums.entries);
    LabelScan(d,
      HeaderSector(sums.primary, 1, last, 2, lastUsable, diskGuid, sums.entries),
      HeaderSector(sums.backup, last, 1, last - ARRAY_SECTORS, lastUsable, diskGuid, sums.entries),
      Entry(partGuid, ESP_START, lastUsable));
    EntryRead(partGuid, ESP_START, lastUsable);
  }

  /** Traffic confined to the volume leaves the whole label byte for byte as it was. */
  lemma LabelOutsideVolume(d: Disk, e: Disk, diskGuid: seq<byte>, partGuid: seq<byte>, sums: Sums)
    requires |diskGuid| == 16 && |partGuid| == 16
    requires HasEsp(d, diskGuid, partGuid, sums) && SameOutside(d, e, ESP_START, |d| - 33)
    ensures HasEsp(e, diskGuid, partGuid, sums)
    ensures d[..ESP_START] == e[..ESP_START] && d[|d| - 33..] == e[|d| - 33..]
  {
    hide HeaderSector, Entry, ProtectiveMbr, HasArray;
    var entry := Entry(partGuid, ESP_START, |d| - 34);
    ArrayKept(d, e, 2, entry);
    ArrayKept(d, e, |d| - 33, entry);
  }

  lemma ArrayKept(d: Disk, e: Disk, start: nat, entry: seq<byte>)
    requires |entry| == 128 && HasArray(d, start, entry)
    requires |d| >= MIN_SECTORS && SameOutside(d, e, ESP_START, |d| - 33)
    requires start + ARRAY_SECTORS <= ESP_START || start >= |d| - 33
    ensures HasArray(e, start, entry)
  {
    forall i: nat | i < ARRAY_SECTORS
      ensures e[start + i] == ArraySector(entry, i)
    {
      assert d[start + i] == e[start + i];
    }
  }
}
