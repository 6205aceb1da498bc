/**
 What the byte volume means to a client: over any run of reads, writes and seeks, `FatDisk` is a
 flat array of bytes with a cursor.
 */
module VolumeRuns {
  import opened Bytes
  import opened Blk
  import opened FatVolume

  datatype Op = ReadOp(n: nat) | WriteOp(data: seq<byte>) | SeekOp(from: SeekFrom)

  datatype Reply = Data(bytes: seq<byte>) | Count(n: nat) | At(pos: nat) | Refused

  /** The reference: a flat array and a cursor that never leaves it. */
  datatype Flat = Flat(bytes: seq<byte>, pos: nat) {
    predicate Valid() { pos <= |bytes| }
  }

  function FlatStep(v: Flat, op: Op): (r: (Flat, Reply))
    requires v.Valid()
    ensures r.0.Valid() && |r.0.bytes| == |v.bytes|
  {
    var room := |v.bytes| - v.pos;
    match op
    case ReadOp(n) =>
      var k := Min(n, room);
      (v.(pos := v.pos + k), Data(v.bytes[v.pos..v.pos + k]))
    case WriteOp(data) =>
      var k := Min(|data|, room);
      (Flat(Splice(v.bytes, v.pos, data[..k]), v.pos + k), Count(k))
    case SeekOp(from) =>
      var t := Target(from, v.pos, |v.bytes|);
      if t < 0 then (v, Refused) else
        var p := Min(t, |v.bytes|);
        (v.(pos := p), At(p))
  }

  function FlatRun(v: Flat, ops: seq<Op>): (r: (Flat, seq<Reply>))
    requires v.Valid()
    ensures r.0.Valid() && |r.1| == |ops|
    decreases |ops|
  {
    if ops == [] then (v, []) else
      var (u, replies) := FlatRun(v, ops[..|ops| - 1]);
      var (w, reply) := FlatStep(u, ops[|ops| - 1]);
      (w, replies + [reply])
  }

  /** A seek aims below 2^64; reads and writes always fit. */
  predicate Fits(v: Flat, op: Op) {
    op.SeekOp? ==> Target(op.from, v.pos, |v.bytes|) < U64_LIMIT
  }

  /** Every seek of the run fits where the flat array performs it. */
  predicate RunFits(v: Flat, ops: seq<Op>)
    requires v.Valid()
    decreases |ops|
  {
    ops == [] || (RunFits(v, ops[..|ops| - 1]) && Fits(FlatRun(v, ops[..|ops| - 1]).0, ops[|ops| - 1]))
  }

  /** The flat array a `FatDisk` stands for. */
  ghost function View(vol: FatDisk): (v: Flat)
    requires vol.Valid()
    reads vol, vol.bounce, vol.blk
    ensures v.Valid()
  {
    Flat(Slice(vol.Device(), vol.Base(), vol.size), vol.pos)
  }

  /** Byte `k` of the flat array is byte `k % 512` of the `k / 512`th sector of the volume. */
  lemma ViewMeaning(vol: FatDisk, k: nat)
    requires vol.Valid() && k < vol.size
    requires vol.disk < |vol.blk.disks| && vol.startLba + k / 512 < |vol.blk.disks[vol.disk]|
    ensures View(vol).pos == vol.pos && |View(vol).bytes| == vol.size
    ensures View(vol).bytes[k] == vol.blk.disks[vol.disk][vol.startLba + k / 512][k % 512]
  {
    assert (vol.startLba * 512 + k) / 512 == vol.startLba + k / 512;
    assert (vol.startLba * 512 + k) % 512 == k % 512;
  }

  /** One operation. A device error ends it with `ok` false; otherwise it is the flat array's exactly when it fits. */
  method Perform(vol: FatDisk, op: Op) returns (ok: bool, reply: Reply)
    requires vol.Shaped()
    modifies vol`pos, vol`cachedLba, vol.bounce, vol.blk
    ensures vol.blk.faults >= old(vol.blk.faults)
    ensures vol.Shaped() && OnlyChanged(old(vol.blk.disks), vol.blk.disks, vol.disk, vol.startLba, vol.EndLba())
    ensures !ok && old(vol.Valid()) ==> vol.blk.faults > old(vol.blk.faults) || !old(vol.OnDevice(0, vol.size))
    ensures ok && old(vol.Valid()) ==> vol.Valid() && vol.blk.faults == old(vol.blk.faults)
    ensures ok && old(vol.Valid()) ==> (Fits(old(View(vol)), op) ==> (View(vol), reply) == FlatStep(old(View(vol)), op))
    ensures ok && old(vol.Valid()) ==> (reply == FlatStep(old(View(vol)), op).1 <==> Fits(old(View(vol)), op))
  {
    hide OnlyChanged;
    Unchanged(vol.blk.disks, vol.disk, vol.startLba, vol.EndLba());
    match op
    case ReadOp(n) =>
      ok, reply := PerformRead(vol, n);
    case WriteOp(data) =>
      ok, reply := PerformWrite(vol, data);
    case SeekOp(from) =>
      SeekExact(from, vol.pos, vol.size);
      var r := vol.Seek(from);
      ok, reply := true, if r.Ok? then At(r.value) else Refused;
  }

  method PerformRead(vol: FatDisk, n: nat) returns (ok: bool, reply: Reply)
    requires vol.Shaped()
    modifies vol`pos, vol`cachedLba, vol.bounce, vol.blk`faults
    ensures vol.Shaped() && vol.blk.faults >= old(vol.blk.faults)
    ensures !ok && old(vol.Valid()) ==> vol.blk.faults > old(vol.blk.faults) || !old(vol.OnDevice(0, vol.size))
    ensures ok && old(vol.Valid()) ==> vol.Valid() && vol.blk.faults == old(vol.blk.faults)
    ensures ok && old(vol.Valid()) ==> (View(vol), reply) == FlatStep(old(View(vol)), ReadOp(n))
  {
    hide Slice, ByteAt;
    var buf := new byte[n](_ => 0);
    var r := vol.Read(buf);
    ok := r.Ok?;
    if !ok {
      return false, Refused;
    }
    var got := buf[..r.value];
    ghost var d, at := vol.Device(), vol.Base() + old(vol.pos);
    if old(vol.Valid()) {
      forall k | 0 <= k < r.value
        ensures got[k] == ByteAt(d, at + k)
      {
        assert got[k] == buf[k];
      }
      ReadSlice(d, vol.Base(), vol.size, old(vol.pos), r.value, got);
    }
    reply := Data(got);
  }

  method PerformWrite(vol: FatDisk, data: seq<byte>) returns (ok: bool, reply: Reply)
    requires vol.Shaped()
    modifies vol`pos, vol`cachedLba, vol.bounce, vol.blk
    ensures vol.blk.faults >= old(vol.blk.faults)
    ensures vol.Shaped() && OnlyChanged(old(vol.blk.disks), vol.blk.disks, vol.disk, vol.startLba, vol.EndLba())
    ensures !ok && old(vol.Valid()) ==> vol.blk.faults > old(vol.blk.faults) || !old(vol.OnDevice(0, vol.size))
    ensures ok && old(vol.Valid()) ==> vol.Valid() && vol.blk.faults == old(vol.blk.faults)
    ensures ok && old(vol.Valid()) ==> (View(vol), reply) == FlatStep(old(View(vol)), WriteOp(data))
  {
    hide OnlyChanged;
    ghost var d := vol.Device();
    var r := vol.Write(data);
    ok := r.Ok?;
    if !ok {
      return false, Refused;
    }
    reply := Count(r.value);
    if old(vol.Valid()) {
      WriteSlice(d, vol.Device(), vol.Base(), vol.size, old(vol.pos), data[..r.value]);
    }
  }

  lemma ReadSlice(d: Disk, base: nat, size: nat, pos: nat, n: nat, got: seq<byte>)
    requires pos + n <= size && |got| == n
    requires forall k :: 0 <= k < n ==> got[k] == ByteAt(d, base + pos + k)
    ensures got == Slice(d, base, size)[pos..pos + n]
  {
  }

  lemma WriteSlice(d: Disk, e: Disk, base: nat, size: nat, pos: nat, data: seq<byte>)
    requires pos + |data| <= size && (Stored(d, e, base + pos, data) || (data == [] && d == e))
    ensures Slice(e, base, size) == Splice(Slice(d, base, size), pos, data)
  {
  }

  /** While the device succeeds, a run of operations answers as the flat array does exactly when all its
      seeks fit, and then leaves what the flat array holds. */
  method Drive(vol: FatDisk, ops: seq<Op>) returns (ok: bool, replies: seq<Reply>)
    requires vol.Valid()
    modifies vol`pos, vol`cachedLba, vol.bounce, vol.blk
    ensures vol.blk.faults >= old(vol.blk.faults)
    ensures vol.Shaped() && OnlyChanged(old(vol.blk.disks), vol.blk.disks, vol.disk, vol.startLba, vol.EndLba())
    ensures !ok ==> vol.blk.faults > old(vol.blk.faults) || !old(vol.OnDevice(0, vol.size))
    ensures ok ==> vol.Valid() && vol.blk.faults == old(vol.blk.faults)
    ensures ok ==> (replies == FlatRun(old(View(vol)), ops).1 <==> RunFits(old(View(vol)), ops))
    ensures ok && RunFits(old(View(vol)), ops) ==> View(vol) == FlatRun(old(View(vol)), ops).0
  {
    hide OnlyChanged, FlatStep, Fits, View, FatDisk.Valid;
    replies := [];
    ghost var v := View(vol);
    ValidShaped(vol);
    Unchanged(vol.blk.disks, vol.disk, vol.startLba, vol.EndLba());
    for i := 0 to |ops|
      invariant OnlyChanged(old(vol.blk.disks), vol.blk.disks, vol.disk, vol.startLba, vol.EndLba())
      invariant vol.bounce == old(vol.bounce) && vol.Valid() && vol.Shaped() && vol.blk.faults == old(vol.blk.faults)
      invariant |replies| == i && (replies == FlatRun(v, ops[..i]).1 <==> RunFits(v, ops[..i]))
      invariant RunFits(v, ops[..i]) ==> View(vol) == FlatRun(v, ops[..i]).0
    {
      SameRanges(old(vol.blk.disks), vol.blk.disks, vol.disk, vol.startLba, vol.EndLba());
      ghost var mid, before := vol.blk.disks, View(vol);
      var reply;
      ok, reply := Perform(vol, ops[i]);
      ChangedTwice(old(vol.blk.disks), mid, vol.blk.disks, vol.disk, vol.startLba, vol.EndLba());
      if !ok {
        return;
      }
      assert ops[..i + 1][..i] == ops[..i];
      replies := replies + [reply];
      assert replies[..i] == FlatRun(v, ops[..i]).1 <==> RunFits(v, ops[..i]);
    }
    assert ops[..|ops|] == ops;
    ok := true;
  }

  lemma ValidShaped(vol: FatDisk)
    requires vol.Valid()
    ensures vol.Shaped()
  {
  }

  /** A client that goes on after device errors still changes nothing outside the volume. */
  method Persist(vol: FatDisk, ops: seq<Op>)
    requires vol.Shaped()
    modifies vol`pos, vol`cachedLba, vol.bounce, vol.blk
    ensures vol.blk.faults >= old(vol.blk.faults) && (ops == [] ==> vol.blk.faults == old(vol.blk.faults))
    ensures vol.Shaped() && OnlyChanged(old(vol.blk.disks), vol.blk.disks, vol.disk, vol.startLba, vol.EndLba())
  {
    hide OnlyChanged;
    Unchanged(vol.blk.disks, vol.disk, vol.startLba, vol.EndLba());
    for i := 0 to |ops|
      invariant vol.bounce == old(vol.bounce) && vol.Shaped() && vol.blk.faults >= old(vol.blk.faults)
      invariant i == 0 ==> vol.blk.faults == old(vol.blk.faults)
      invariant OnlyChanged(old(vol.blk.disks), vol.blk.disks, vol.disk, vol.startLba, vol.EndLba())
    {
      ghost var mid := vol.blk.disks;
      var _, _ := Perform(vol, ops[i]);
      ChangedTwice(old(vol.blk.disks), mid, vol.blk.disks, vol.disk, vol.startLba, vol.EndLba());
    }
  }
}
