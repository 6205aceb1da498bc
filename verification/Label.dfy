/**
 The label `write_esp` leaves on a disk, read back field by field from the disk's own bytes, at the offsets of
 UEFI 2.10, sections 5.2.3, 5.3.2 and 5.3.3.
 */
module Label {
  import opened Bytes
  import opened Blk
  import Crc
  import Gpt
  import Part

  // ---------- What must be on the disk ----------

  /** The header fields other than the two checksums. */
  ghost predicate HeaderFields(s: Sector, my: nat, other: nat, entries: nat, lastUsable: nat, diskGuid: seq<byte>) {
    && s[0..8] == [0x45, 0x46, 0x49, 0x20, 0x50, 0x41, 0x52, 0x54]
    && FromLe(s[8..12]) == 0x1_0000 && FromLe(s[12..16]) == 92 && s[20..24] == [0, 0, 0, 0]
    && FromLe(s[24..32]) == my && FromLe(s[32..40]) == other
    && FromLe(s[40..48]) == 34 && FromLe(s[48..56]) == lastUsable && s[56..72] == diskGuid
    && FromLe(s[72..80]) == entries && FromLe(s[80..84]) == 128 && FromLe(s[84..88]) == 128
    && (forall i :: 92 <= i < 512 ==> s[i] == 0)
  }

  /** The first sector of an entry array: one EFI system partition, and nothing else. */
  ghost predicate EntryFields(s: Sector, first: nat, last: nat, partGuid: seq<byte>) {
    && s[0..16] == [0x28, 0x73, 0x2A, 0xC1, 0x1F, 0xF8, 0xD2, 0x11, 0xBA, 0x4B, 0x00, 0xA0, 0xC9, 0x3E, 0xC9, 0x3B]
    && s[16..32] == partGuid && FromLe(s[32..40]) == first && FromLe(s[40..48]) == last
    && s[48..56] == [0, 0, 0, 0, 0, 0, 0, 0] && s[56..68] == [0x43, 0, 0x4F, 0, 0x45, 0, 0x4C, 0, 0x45, 0, 0x4F, 0]
    && (forall i :: 68 <= i < 512 ==> s[i] == 0)
  }

  /** The protective MBR: one slot of type 0xEE over the whole disk. */
  ghost predicate MbrFields(s: Sector, sectors: nat) {
    && s[446..450] == [0x00, 0x00, 0x02, 0x00] && s[450] == 0xEE && s[451..454] == [0xFF, 0xFF, 0xFF]
    && FromLe(s[454..458]) == 1
    && FromLe(s[458..462]) == (if sectors <= 0x1_0000_0000 then sectors - 1 else 0xFFFF_FFFF)
    && s[510] == 0x55 && s[511] == 0xAA
    && (forall i :: 0 <= i < 446 || 462 <= i < 510 ==> s[i] == 0)
  }

  /** Where the header at `h` says its entry array is. */
  function ArrayOf(sectors: nat, h: nat): int { if h == 1 then 2 else sectors - 33 }

  /** The header at sector `h`, both its checksums and the array it names. */
  ghost predicate HeaderAt(d: Disk, h: nat, diskGuid: seq<byte>, partGuid: seq<byte>)
    requires |d| >= 131072 && (h == 1 || h == |d| - 1)
  {
    var s, a := d[h], ArrayOf(|d|, h);
    && HeaderFields(s, h, |d| - h, a, |d| - 34, diskGuid)
    && FromLe(s[16..20]) == Crc.Crc32(s[..16] + [0, 0, 0, 0] + s[20..92])
    && FromLe(s[88..92]) == Crc.Crc32(Gpt.Flat(d, a, 32))
    && EntryFields(d[a], 2048, |d| - 34, partGuid)
    && (forall i, k :: a < i < a + 32 && 0 <= k < 512 ==> d[i][k] == 0)
  }

  // ---------- Slices of what the writer puts together ----------

  lemma PlacementSlices(z: seq<byte>, a: seq<byte>, b: seq<byte>, c: seq<byte>, e: seq<byte>, g: seq<byte>)
    requires |z| == 4 && |a| == 8 && |b| == 8 && |c| == 8 && |e| == 8 && |g| == 16
    ensures var p := z + a + b + c + e + g;
      p[0..4] == z && p[4..12] == a && p[12..20] == b && p[20..28] == c && p[28..36] == e && p[36..52] == g
  {
  }

  lemma TableSlices(a: seq<byte>, b: seq<byte>, c: seq<byte>, e: seq<byte>)
    requires |a| == 8 && |b| == 4 && |c| == 4 && |e| == 4
    ensures var t := a + b + c + e; t[0..8] == a && t[8..12] == b && t[12..16] == c && t[16..20] == e
  {
  }

  lemma HeaderSlices(i: seq<byte>, c: seq<byte>, p: seq<byte>, t: seq<byte>, z: seq<byte>)
    requires |i| == 16 && |c| == 4 && |p| == 52 && |t| == 20 && |z| == 420
    ensures var s := i + c + p + t + z;
      s[0..16] == i && s[16..20] == c && s[20..72] == p && s[72..92] == t && s[92..512] == z
  {
  }

  lemma IdentitySlices(s: seq<byte>)
    requires |s| >= 16 && s[0..16] == Gpt.Identity()
    ensures s[0..8] == [0x45, 0x46, 0x49, 0x20, 0x50, 0x41, 0x52, 0x54]
    ensures FromLe(s[8..12]) == 0x1_0000 && FromLe(s[12..16]) == 92
  {
    hide ToLe, FromLe;
    var i := Gpt.Identity();
    assert i[0..8] == [0x45, 0x46, 0x49, 0x20, 0x50, 0x41, 0x52, 0x54];
    assert i[8..12] == ToLe(0x1_0000, 4) && i[12..16] == ToLe(92, 4);
    Gpt.SubSlice(s, 0, 16, 0, 8);
    Gpt.SubSlice(s, 0, 16, 8, 12);
    Gpt.SubSlice(s, 0, 16, 12, 16);
    Le32RoundTrip(0x1_0000);
    Le32RoundTrip(92);
  }

  lemma PlacementFields(s: seq<byte>, my: nat, alt: nat, lastUsable: nat, guid: seq<byte>)
    requires |s| >= 72 && |guid| == 16 && s[20..72] == Gpt.Placement(my, alt, lastUsable, guid)
    requires my < U64_LIMIT && alt < U64_LIMIT && lastUsable < U64_LIMIT
    ensures s[20..24] == Zeros(4) && FromLe(s[24..32]) == my && FromLe(s[32..40]) == alt
    ensures FromLe(s[40..48]) == 34 && FromLe(s[48..56]) == lastUsable && s[56..72] == guid
  {
    hide ToLe, FromLe;
    PlacementSlices(Zeros(4), ToLe(my, 8), ToLe(alt, 8), ToLe(34, 8), ToLe(lastUsable, 8), guid);
    Gpt.SubSlice(s, 20, 72, 0, 4);
    Gpt.SubSlice(s, 20, 72, 4, 12);
    Gpt.SubSlice(s, 20, 72, 12, 20);
    Gpt.SubSlice(s, 20, 72, 20, 28);
    Gpt.SubSlice(s, 20, 72, 28, 36);
    Gpt.SubSlice(s, 20, 72, 36, 52);
    Le64RoundTrip(my);
    Le64RoundTrip(alt);
    Le64RoundTrip(34);
    Le64RoundTrip(lastUsable);
  }

  lemma TableFields(s: seq<byte>, part: nat, crc: nat)
    requires |s| >= 92 && s[72..92] == Gpt.TableRef(part, crc) && part < U64_LIMIT && crc < U32_LIMIT
    ensures FromLe(s[72..80]) == part && FromLe(s[80..84]) == 128 && FromLe(s[84..88]) == 128 && FromLe(s[88..92]) == crc
  {
    hide ToLe, FromLe;
    TableSlices(ToLe(part, 8), ToLe(128, 4), ToLe(128, 4), ToLe(crc, 4));
    Gpt.SubSlice(s, 72, 92, 0, 8);
    Gpt.SubSlice(s, 72, 92, 8, 12);
    Gpt.SubSlice(s, 72, 92, 12, 16);
    Gpt.SubSlice(s, 72, 92, 16, 20);
    Le64RoundTrip(part);
    Le32RoundTrip(128);
    Le32RoundTrip(crc);
  }

  /** Every field of a header sector. */
  lemma SectorFields(crc: nat, my: nat, alt: nat, part: nat, lastUsable: nat, guid: seq<byte>, arrayCrc: nat)
    requires |guid| == 16 && my < U64_LIMIT && alt < U64_LIMIT && part < U64_LIMIT && lastUsable < U64_LIMIT
    requires crc < U32_LIMIT && arrayCrc < U32_LIMIT
    ensures var s := Gpt.HeaderSector(crc, my, alt, part, lastUsable, guid, arrayCrc);
      HeaderFields(s, my, alt, part, lastUsable, guid) && FromLe(s[16..20]) == crc && FromLe(s[88..92]) == arrayCrc
  {
    hide ToLe, FromLe, Gpt.Identity, Gpt.Placement, Gpt.TableRef;
    var s := Gpt.HeaderSector(crc, my, alt, part, lastUsable, guid, arrayCrc);
    HeaderSlices(Gpt.Identity(), ToLe(crc, 4), Gpt.Placement(my, alt, lastUsable, guid), Gpt.TableRef(part, arrayCrc), Zeros(420));
    IdentitySlices(s);
    PlacementFields(s, my, alt, lastUsable, guid);
    TableFields(s, part, arrayCrc);
    Le32RoundTrip(crc);
    assert Zeros(4) == [0, 0, 0, 0];
    forall i | 92 <= i < 512
      ensures s[i] == 0
    {
      assert s[i] == s[92..512][i - 92];
    }
  }

  lemma EntrySlices(g: seq<byte>, u: seq<byte>, f: seq<byte>, l: seq<byte>, a: seq<byte>, n: seq<byte>, z: seq<byte>, y: seq<byte>)
    requires |g| == 16 && |u| == 16 && |f| == 8 && |l| == 8 && |a| == 8 && |n| == 12 && |z| == 60 && |y| == 384
    ensures var s := g + u + f + l + a + n + z + y;
      && s[0..16] == g && s[16..32] == u && s[32..40] == f && s[40..48] == l && s[48..56] == a && s[56..68] == n
      && s[68..128] == z && s[128..512] == y
  {
  }

  lemma FirstSectorFields(unique: seq<byte>, first: nat, last: nat)
    requires |unique| == 16 && first < U64_LIMIT && last < U64_LIMIT
    ensures EntryFields(Gpt.ArraySector(Gpt.Entry(unique, first, last), 0), first, last, unique)
  {
    hide ToLe, FromLe;
    var s := Gpt.ArraySector(Gpt.Entry(unique, first, last), 0);
    EntrySlices(Part.GUID_ESP, unique, ToLe(first, 8), ToLe(last, 8), Zeros(8), Gpt.NAME, Zeros(60), Zeros(384));
    Le64RoundTrip(first);
    Le64RoundTrip(last);
    assert Zeros(8) == [0, 0, 0, 0, 0, 0, 0, 0];
    forall i | 68 <= i < 512
      ensures s[i] == 0
    {
      assert i < 128 ==> s[i] == s[68..128][i - 68];
      assert i >= 128 ==> s[i] == s[128..512][i - 128];
    }
  }

  lemma MbrSlices(a: seq<byte>, m: seq<byte>, f: seq<byte>, n: seq<byte>, z: seq<byte>, e: seq<byte>)
    requires |a| == 446 && |m| == 8 && |f| == 4 && |n| == 4 && |z| == 48 && |e| == 2
    ensures var s := a + m + f + n + z + e;
      && s[0..446] == a && s[446..450] == m[0..4] && s[450] == m[4] && s[451..454] == m[5..8] && s[454..458] == f
      && s[458..462] == n && s[462..510] == z && s[510] == e[0] && s[511] == e[1]
  {
  }

  lemma MbrRead(sectors: nat)
    requires sectors > 0
    ensures MbrFields(Gpt.ProtectiveMbr(sectors), sectors)
  {
    hide ToLe, FromLe;
    var s, size := Gpt.ProtectiveMbr(sectors), Min(Max(sectors - 1, 0), U32_LIMIT - 1);
    MbrSlices(Zeros(446), Gpt.MBR_SLOT, ToLe(1, 4), ToLe(size, 4), Zeros(48), [0x55, 0xAA]);
    Le32RoundTrip(1);
    Le32RoundTrip(size);
    forall i | 0 <= i < 446 || 462 <= i < 510
      ensures s[i] == 0
    {
      assert i < 446 ==> s[i] == s[0..446][i];
      assert i >= 462 ==> s[i] == s[462..510][i - 462];
    }
  }

  // ---------- The disk ----------

  lemma HeaderOnDisk(d: Disk, h: nat, diskGuid: seq<byte>, partGuid: seq<byte>)
    requires |diskGuid| == 16 && |partGuid| == 16 && 131072 <= |d| < U64_LIMIT && (h == 1 || h == |d| - 1)
    requires var entry := Gpt.Entry(partGuid, 2048, |d| - 34);
      var crc := Gpt.ArrayCrc(entry);
      && Gpt.HasArray(d, ArrayOf(|d|, h), entry)
      && d[h] == Gpt.HeaderSector(Gpt.HeaderCrc(h, |d| - h, ArrayOf(|d|, h), |d| - 34, diskGuid, crc),
                                  h, |d| - h, ArrayOf(|d|, h), |d| - 34, diskGuid, crc)
    ensures HeaderAt(d, h, diskGuid, partGuid)
  {
    hide FromLe, Gpt.HeaderSector, Gpt.HeaderCrc, Gpt.Entry, Gpt.HasArray, Gpt.ArrayCrc, Gpt.Flat, HeaderFields, EntryFields;
    var a, entry := ArrayOf(|d|, h), Gpt.Entry(partGuid, 2048, |d| - 34);
    var crc := Gpt.ArrayCrc(entry);
    SectorFields(Gpt.HeaderCrc(h, |d| - h, a, |d| - 34, diskGuid, crc), h, |d| - h, a, |d| - 34, diskGuid, crc);
    Gpt.HeaderCrcHolds(h, |d| - h, a, |d| - 34, diskGuid, crc);
    assert Zeros(4) == [0, 0, 0, 0];
    ArrayOnDisk(d, a, partGuid, |d| - 34);
  }

  lemma ArrayOnDisk(d: Disk, a: nat, partGuid: seq<byte>, last: nat)
    requires |partGuid| == 16 && last < U64_LIMIT && Gpt.HasArray(d, a, Gpt.Entry(partGuid, 2048, last))
    ensures a + 32 <= |d| && Gpt.ArrayCrc(Gpt.Entry(partGuid, 2048, last)) == Crc.Crc32(Gpt.Flat(d, a, 32))
    ensures EntryFields(d[a], 2048, last, partGuid)
    ensures forall i, k :: a < i < a + 32 && 0 <= k < 512 ==> d[i][k] == 0
  {
    hide FromLe, Gpt.Entry, Gpt.ArraySector, Gpt.ArrayCrc, Gpt.Flat, EntryFields;
    var entry := Gpt.Entry(partGuid, 2048, last);
    Gpt.ArrayCrcOnDisk(d, a, entry);
    FirstSectorFields(partGuid, 2048, last);
    assert d[a + 0] == Gpt.ArraySector(entry, 0);
    forall i, k | a < i < a + 32 && 0 <= k < 512
      ensures d[i][k] == 0
    {
      assert d[a + (i - a)] == Gpt.ArraySector(entry, i - a);
      LaterSector(entry, i - a, k);
    }
  }

  lemma LaterSector(entry: seq<byte>, i: nat, k: nat)
    requires |entry| == 128 && i > 0 && k < 512
    ensures Gpt.ArraySector(entry, i)[k] == 0
  {
  }

  /** On every disk the writer has labelled: the protective MBR; the primary header in sector 1 and the backup in
      the last one, each naming itself, the other, the usable sectors and its own entry array; both arrays with the
      one entry; and all checksums as the standard requires. */
  lemma LabelMeaning(d: Disk, diskGuid: seq<byte>, partGuid: seq<byte>)
    requires |diskGuid| == 16 && |partGuid| == 16 && 131072 <= |d| < U64_LIMIT
    requires Gpt.HasEsp(d, diskGuid, partGuid, Gpt.RightSums(|d|, diskGuid, partGuid))
    ensures MbrFields(d[0], |d|) && HeaderAt(d, 1, diskGuid, partGuid) && HeaderAt(d, |d| - 1, diskGuid, partGuid)
  {
    hide Gpt.ProtectiveMbr, Gpt.HeaderSector, Gpt.HeaderCrc, Gpt.Entry, Gpt.ArrayCrc, Gpt.HasArray, HeaderAt, MbrFields;
    MbrRead(|d|);
    HeaderOnDisk(d, 1, diskGuid, partGuid);
    HeaderOnDisk(d, |d| - 1, diskGuid, partGuid);
  }
}
