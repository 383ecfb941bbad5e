/**
 * The disk builders of p2v/disk.py: MakeMbrDisk, MakeGptDisk and
 * MakeDiskArray turn volumes, whose devices are attached, into disk layouts.
 * Each builder is a method proved equal to a function that reads the
 * volumes; the properties of the layouts are lemmas about those functions.
 */
module DiskBuilders {
  import opened Wrappers
  import opened Units
  import opened Hex
  import opened Identities
  import opened Volumes
  import opened Partitions
  import opened Disks

  /** A finished prefix of a list built by a loop that stops at the first failure. */
  function Prepend<T>(done: seq<T>, rest: Result<seq<T>>): Result<seq<T>> {
    match rest
    case Success(more) => Success(done + more)
    case Failure(e) => Failure(e)
  }

  lemma {:induction false} PrependNothing<T>(rest: Result<seq<T>>)
    ensures Prepend([], rest) == rest
  {
    if rest.Success? {
      assert [] + rest.value == rest.value;
    }
  }

  lemma {:induction false} PrependOneMore<T>(done: seq<T>, x: T, rest: Result<seq<T>>)
    ensures Prepend(done, Prepend([x], rest)) == Prepend(done + [x], rest)
  {
    if rest.Success? {
      assert done + ([x] + rest.value) == done + [x] + rest.value;
    }
  }

  // ---------------------------------------------------------------- MBR

  /** What MakeMbrDisk relies on: an MBR partition identity and an attached device. */
  predicate MbrReady(v: Volume)
    reads v
  {
    v.identity.Some? && v.identity.value.flavor == MbrPartition && v.device.Some?
  }

  predicate AllMbrReady(vs: seq<Volume>)
    reads vs
  {
    forall i :: 0 <= i < |vs| ==> MbrReady(vs[i])
  }

  /** Where the volume's data ends on the original disk. */
  function VolumeEnd(v: Volume): int
    reads v
    requires MbrReady(v)
  {
    OffsetOf(v.identity.value) + v.device.value.length
  }

  /** The partition MakeMbrDisk builds for a volume: offset from the identity, length from the device, no identity. */
  function MbrPartitionOf(v: Volume, style: PartitionStyle): Partition
    reads v
    requires MbrReady(v)
  {
    Partition(style, OffsetOf(v.identity.value), v.device.value.length, None, Some(v), MiB)
  }

  /** The constructor accepts the partition built for v. */
  predicate MbrFits(v: Volume, style: PartitionStyle)
    reads v
    requires MbrReady(v)
  {
    NewPartition(OffsetOf(v.identity.value), v.device.value.length, StyleName(style), None, Some(v), MiB).Success?
  }

  /** The partitions of one of MakeMbrDisk's loops, failing at the first volume the constructor rejects. */
  function MbrPartitions(vs: seq<Volume>, style: PartitionStyle): Result<seq<Partition>>
    reads vs
    requires AllMbrReady(vs)
  {
    if vs == [] then Success([])
    else
      var v := vs[0];
      var p :- NewPartition(OffsetOf(v.identity.value), v.device.value.length, StyleName(style), None, Some(v), MiB);
      var rest :- MbrPartitions(vs[1..], style);
      Success([p] + rest)
  }

  /** The loop succeeds exactly when every volume fits, and then builds one partition per volume, in order. */
  lemma {:induction false} MbrPartitionsMeaning(vs: seq<Volume>, style: PartitionStyle)
    requires AllMbrReady(vs)
    ensures MbrPartitions(vs, style).Success? <==> forall i :: 0 <= i < |vs| ==> MbrFits(vs[i], style)
    ensures MbrPartitions(vs, style).Success? ==>
      var ps := MbrPartitions(vs, style).value;
      |ps| == |vs| && forall i :: 0 <= i < |vs| ==> ps[i] == MbrPartitionOf(vs[i], style)
  {
    if vs != [] {
      var v := vs[0];
      ParseStyleName(style);
      MbrPartitionsMeaning(vs[1..], style);
      assert forall i :: 1 <= i < |vs| ==> vs[i] == vs[1..][i - 1];
    }
  }

  /** The first three volumes, which become primary partitions. */
  function Primaries(vs: seq<Volume>): seq<Volume> {
    if |vs| <= 3 then vs else vs[..3]
  }

  function MbrDiskIdOf(v: Volume): Identity
    requires v.identity.Some? && v.identity.value.flavor == MbrPartition
  {
    Id(MbrDisk, SignatureOf(v.identity.value))
  }

  /** The layout MakeMbrDisk builds from its volumes. */
  function MbrDiskOf(vs: seq<Volume>): Result<Disk>
    reads vs
    requires vs != [] && AllMbrReady(vs)
  {
    var physical :- MbrPartitions(Primaries(vs), Primary);
    MbrPartitionsMeaning(Primaries(vs), Primary);
    if |vs| <= 3 then
      NewDisk(End(Last(physical)), physical, Some(MbrDiskIdOf(vs[0])), [])
    else
      ExtendedMbrDiskOf(vs, physical)
  }

  /** The second half of MakeMbrDisk, for more than three volumes: the extended partition and the logical ones. */
  function ExtendedMbrDiskOf(vs: seq<Volume>, physical: seq<Partition>): Result<Disk>
    reads vs
    requires |vs| > 3 && AllMbrReady(vs) && physical != []
  {
    var extOffset := End(Last(physical));
    var extended :- NewPartition(extOffset, VolumeEnd(vs[|vs| - 1]) - extOffset, StyleName(Extended), None, None, MiB);
    var logical :- MbrPartitions(vs[3..], Logical);
    MbrPartitionsMeaning(vs[3..], Logical);
    NewDisk(End(Last(logical)), physical + [extended], Some(MbrDiskIdOf(vs[0])), logical)
  }

  /** A disk MakeMbrDisk builds is valid and carries the signature of the first volume. */
  lemma {:induction false} MbrDiskValid(vs: seq<Volume>)
    requires vs != [] && AllMbrReady(vs) && MbrDiskOf(vs).Success?
    ensures ValidDisk(MbrDiskOf(vs).value)
    ensures MbrDiskOf(vs).value.identity == Some(Id(MbrDisk, SignatureOf(vs[0].identity.value)))
  {
    MbrPartitionsMeaning(Primaries(vs), Primary);
    if |vs| > 3 {
      assert MbrDiskOf(vs) == ExtendedMbrDiskOf(vs, MbrPartitions(Primaries(vs), Primary).value);
      MbrPartitionsMeaning(vs[3..], Logical);
    }
  }

  /** One loop of MakeMbrDisk: a partition per volume, appended in order. */
  method BuildMbrPartitions(vs: seq<Volume>, style: PartitionStyle) returns (r: Result<seq<Partition>>)
    requires AllMbrReady(vs)
    ensures r == MbrPartitions(vs, style)
  {
    var built: seq<Partition> := [];
    assert vs[0..] == vs;
    PrependNothing(MbrPartitions(vs, style));
    for i := 0 to |vs|
      invariant MbrPartitions(vs, style) == Prepend(built, MbrPartitions(vs[i..], style))
    {
      var v := vs[i];
      ghost var rest := vs[i..];
      assert rest[0] == v && rest[1..] == vs[i + 1..];
      var partition := NewPartition(OffsetOf(v.identity.value), v.device.value.length, StyleName(style), None, Some(v), MiB);
      MbrPartitionsStep(rest, style, partition);
      if partition.Failure? {
        return Failure(partition.error);
      }
      PrependOneMore(built, partition.value, MbrPartitions(vs[i + 1..], style));
      built := built + [partition.value];
    }
    assert vs[|vs|..] == [] && built + [] == built;
    return Success(built);
  }

  /** One turn of a loop of MakeMbrDisk, in terms of MbrPartitions. */
  lemma {:induction false} MbrPartitionsStep(vs: seq<Volume>, style: PartitionStyle, partition: Result<Partition>)
    requires AllMbrReady(vs) && vs != []
    requires partition == NewPartition(OffsetOf(vs[0].identity.value), vs[0].device.value.length, StyleName(style), None, Some(vs[0]), MiB)
    ensures partition.Failure? ==> MbrPartitions(vs, style) == Failure(partition.error)
    ensures partition.Success? ==> MbrPartitions(vs, style) == Prepend([partition.value], MbrPartitions(vs[1..], style))
  {
  }

  /** MakeMbrDisk. */
  method MakeMbrDisk(vs: seq<Volume>) returns (r: Result<Disk>)
    requires vs != [] && AllMbrReady(vs)
    ensures r == MbrDiskOf(vs)
  {
    var physical := BuildMbrPartitions(Primaries(vs), Primary);
    if physical.Failure? {
      return Failure(physical.error);
    }
    var primaries := physical.value;
    MbrPartitionsMeaning(Primaries(vs), Primary);
    if |vs| <= 3 {
      var length := End(primaries[|primaries| - 1]);
      r := NewDisk(length, primaries, Some(MbrDiskIdOf(vs[0])), []);
      return;
    }
    r := AddExtendedPartition(vs, primaries);
  }

  /** The rest of MakeMbrDisk for more than three volumes: the extended partition, then the logical ones. */
  method AddExtendedPartition(vs: seq<Volume>, primaries: seq<Partition>) returns (r: Result<Disk>)
    requires |vs| > 3 && AllMbrReady(vs) && primaries != []
    ensures r == ExtendedMbrDiskOf(vs, primaries)
  {
    var diskId := MbrDiskIdOf(vs[0]);
    var extendedOffset := End(primaries[|primaries| - 1]);
    var lastVolume := vs[|vs| - 1];
    var lastLogicalVolumeEnd := OffsetOf(lastVolume.identity.value) + lastVolume.device.value.length;
    var extendedLength := lastLogicalVolumeEnd - extendedOffset;
    var extended := NewPartition(extendedOffset, extendedLength, StyleName(Extended), None, None, MiB);
    if extended.Failure? {
      return Failure(extended.error);
    }
    var logical := BuildMbrPartitions(vs[3..], Logical);
    if logical.Failure? {
      return Failure(logical.error);
    }
    MbrPartitionsMeaning(vs[3..], Logical);
    var length := End(logical.value[|logical.value| - 1]);
    r := NewDisk(length, primaries + [extended.value], Some(diskId), logical.value);
  }

  /** The disk MbrDiskOf builds for more than three volumes, when it builds one. */
  lemma {:induction false} MbrDiskOfExtendedValue(vs: seq<Volume>, physical: seq<Partition>)
    requires |vs| > 3 && AllMbrReady(vs) && MbrPartitions(Primaries(vs), Primary) == Success(physical) && physical != []
    requires MbrDiskOf(vs).Success?
    ensures
      var extended := NewPartition(End(Last(physical)), VolumeEnd(vs[|vs| - 1]) - End(Last(physical)), StyleName(Extended), None, None, MiB);
      var logical := MbrPartitions(vs[3..], Logical);
      extended.Success? && logical.Success? && logical.value != [] &&
      extended.value == Partition(Extended, End(Last(physical)), VolumeEnd(vs[|vs| - 1]) - End(Last(physical)), None, None, MiB) &&
      MbrDiskOf(vs).value == Disk(End(Last(logical.value)), Some(MbrDiskIdOf(vs[0])), physical + [extended.value], logical.value)
  {
    assert MbrDiskOf(vs) == ExtendedMbrDiskOf(vs, physical);
    MbrPartitionsMeaning(vs[3..], Logical);
    ParseStyleName(Extended);
  }

  /**
   * With up to three volumes MakeMbrDisk builds one primary partition per
   * volume, in order, under the signature of the first volume, and the disk
   * ends where its last partition ends.
   */
  lemma {:induction false} MbrDiskPrimaries(vs: seq<Volume>)
    requires vs != [] && |vs| <= 3 && AllMbrReady(vs) && MbrDiskOf(vs).Success?
    ensures |MbrDiskOf(vs).value.partitions| == |vs|
    ensures forall i :: 0 <= i < |vs| ==> MbrDiskOf(vs).value.partitions[i] == MbrPartitionOf(vs[i], Primary)
    ensures MbrDiskOf(vs).value.logical == []
    ensures MbrDiskOf(vs).value.length == End(Last(MbrDiskOf(vs).value.partitions))
  {
    assert Primaries(vs) == vs;
    MbrPartitionsMeaning(vs, Primary);
    var physical := MbrPartitions(vs, Primary).value;
    assert MbrDiskOf(vs) == NewDisk(End(Last(physical)), physical, Some(MbrDiskIdOf(vs[0])), []);
  }

  /**
   * With more than three volumes MakeMbrDisk builds three primaries from the
   * first three volumes and appends an extended partition reaching from the
   * end of the third primary to the end of the last volume.
   */
  lemma {:induction false} MbrDiskExtended(vs: seq<Volume>)
    requires |vs| > 3 && AllMbrReady(vs) && MbrDiskOf(vs).Success?
    ensures
      var d := MbrDiskOf(vs).value;
      |d.partitions| == 4 &&
      (forall i :: 0 <= i < 3 ==> d.partitions[i] == MbrPartitionOf(vs[i], Primary)) &&
      d.partitions[3] == Partition(Extended, End(d.partitions[2]), VolumeEnd(vs[|vs| - 1]) - End(d.partitions[2]), None, None, MiB)
  {
    var physical := MbrPartitions(Primaries(vs), Primary).value;
    MbrPartitionsMeaning(Primaries(vs), Primary);
    MbrDiskOfExtendedValue(vs, physical);
    ExtendedTable(vs, physical, MbrDiskOf(vs).value.partitions);
  }

  /** Three primaries built from the first three volumes, followed by the extended partition. */
  lemma {:induction false} ExtendedTable(vs: seq<Volume>, physical: seq<Partition>, ps: seq<Partition>)
    requires |vs| > 3 && AllMbrReady(vs) && |physical| == 3 && VolumeEnd(vs[|vs| - 1]) > End(Last(physical))
    requires forall i :: 0 <= i < 3 ==> physical[i] == MbrPartitionOf(Primaries(vs)[i], Primary)
    requires ps == physical + [Partition(Extended, End(Last(physical)), VolumeEnd(vs[|vs| - 1]) - End(Last(physical)), None, None, MiB)]
    ensures |ps| == 4
    ensures forall i :: 0 <= i < 3 ==> ps[i] == MbrPartitionOf(vs[i], Primary)
    ensures ps[3] == Partition(Extended, End(ps[2]), VolumeEnd(vs[|vs| - 1]) - End(ps[2]), None, None, MiB)
  {
    assert Primaries(vs) == vs[..3];
  }

  /**
   * With more than three volumes the remaining volumes become, in order, the
   * logical partitions, and the disk ends where the last of them ends.
   */
  lemma {:induction false} MbrDiskLogical(vs: seq<Volume>)
    requires |vs| > 3 && AllMbrReady(vs) && MbrDiskOf(vs).Success?
    ensures
      var d := MbrDiskOf(vs).value;
      |d.logical| == |vs| - 3 &&
      (forall j :: 0 <= j < |vs| - 3 ==> d.logical[j] == MbrPartitionOf(vs[3 + j], Logical)) &&
      d.length == End(Last(d.logical))
  {
    var physical := MbrPartitions(Primaries(vs), Primary).value;
    assert MbrPartitions(Primaries(vs), Primary).Success? && physical != [] by {
      MbrPartitionsMeaning(Primaries(vs), Primary);
    }
    MbrDiskOfExtendedValue(vs, physical);
    MbrPartitionsMeaning(vs[3..], Logical);
  }

  /** The volumes of a disk MakeMbrDisk builds are its arguments, in order. */
  lemma {:induction false} MbrDiskVolumes(vs: seq<Volume>)
    requires vs != [] && AllMbrReady(vs) && MbrDiskOf(vs).Success?
    ensures DiskVolumes(MbrDiskOf(vs).value) == vs
  {
    var d := MbrDiskOf(vs).value;
    if |vs| <= 3 {
      MbrDiskPrimaries(vs);
      assert d.logical == [] && d.partitions + [] == d.partitions;
      assert GetPartitions(d) == d.partitions;
      VolumesOfEach(d.partitions, vs);
    } else {
      MbrDiskExtended(vs);
      MbrDiskLogical(vs);
      assert d.partitions == d.partitions[..3] + [d.partitions[3]];
      ExtendedLayoutVolumes(d.partitions[..3], d.partitions[3], d.logical, vs);
    }
  }

  /** Primaries carrying the first three volumes, a bare extended partition, then the rest as logical ones. */
  lemma {:induction false} ExtendedLayoutVolumes(primaries: seq<Partition>, ext: Partition, logical: seq<Partition>, vs: seq<Volume>)
    requires |primaries| == 3 && |vs| == 3 + |logical|
    requires forall i :: 0 <= i < 3 ==> primaries[i].volume == Some(vs[i])
    requires ext.volume.None?
    requires forall j :: 0 <= j < |logical| ==> logical[j].volume == Some(vs[3 + j])
    ensures VolumesOf(primaries + [ext] + logical) == vs
  {
    VolumesOfEach(primaries, vs[..3]);
    VolumesOfEach(logical, vs[3..]);
    VolumesOfAppend(primaries, [ext]);
    VolumesOfAppend(primaries + [ext], logical);
    assert VolumesOf([ext]) == [] by {
      assert [ext][1..] == [];
    }
    assert vs == vs[..3] + vs[3..];
  }

  // ---------------------------------------------------------------- GPT

  /** What MakeGptDisk relies on: an attached device. */
  predicate AllGptReady(vs: seq<Volume>)
    reads vs
  {
    forall i :: 0 <= i < |vs| ==> vs[i].device.Some?
  }

  /** A length or offset rounded up to the GPT partition alignment, as MakeGptDisk does in two places. */
  function RoundUp(n: int): int {
    if n % GptPartitionAlignment > 0 then n + (GptPartitionAlignment - n % GptPartitionAlignment) else n
  }

  /** RoundUp gives the least multiple of the alignment that is not below its argument. */
  lemma {:induction false} RoundUpIsLeast(n: int, m: int)
    ensures RoundUp(n) % GptPartitionAlignment == 0
    ensures n <= RoundUp(n) < n + GptPartitionAlignment
    ensures m % GptPartitionAlignment == 0 && m >= n ==> m >= RoundUp(n)
  {
    var a := GptPartitionAlignment;
    var q := n / a;
    assert n == a * q + n % a;
    if n % a > 0 {
      DivModUnique(a * (q + 1), a, q + 1, 0);
      if m % a == 0 && m >= n {
        var k := m / a;
        assert m == a * k;
        if k <= q {
          assert a * (q - k) >= 0 by {
            if q - k >= 1 {
              MulAtLeast(a, q - k);
            }
          }
          assert false;
        }
        MulAtLeast(a, k - q);
      }
    }
  }

  /** The sum of two aligned values is aligned. */
  lemma {:induction false} AlignedSum(x: int, y: int, a: Alignment)
    requires x % a == 0 && y % a == 0
    ensures (x + y) % a == 0
  {
    var p, q := x / a, y / a;
    assert x == a * p && y == a * q;
    assert x + y == a * (p + q);
    DivModUnique(x + y, a, p + q, 0);
  }

  /** An aligned value is left where it is, and nothing else is. */
  lemma {:induction false} RoundUpFixes(n: int)
    ensures RoundUp(n) == n <==> n % GptPartitionAlignment == 0
  {
    RoundUpIsLeast(n, n);
  }

  /** The partitions of MakeGptDisk's loop from a given offset, failing at the first volume the constructor rejects. */
  function GptPartitionsFrom(vs: seq<Volume>, offset: int): Result<seq<Partition>>
    reads vs
    requires AllGptReady(vs)
  {
    if vs == [] then Success([])
    else
      var length := RoundUp(vs[0].device.value.length);
      var p :- NewPartition(offset, length, StyleName(PartitionStyle.Gpt), vs[0].identity, Some(vs[0]), MiB);
      var rest :- GptPartitionsFrom(vs[1..], RoundUp(offset + length));
      Success([p] + rest)
  }

  /** The partition MakeGptDisk builds for a volume, wherever it is placed. */
  predicate GptPartitionFor(p: Partition, v: Volume)
    reads v
    requires v.device.Some?
  {
    p.style == PartitionStyle.Gpt && p.length == RoundUp(v.device.value.length) &&
    p.identity == v.identity && p.volume == Some(v) && p.alignment == MiB
  }

  /** From an aligned offset the loop succeeds exactly when no device is empty. */
  lemma {:induction false} GptPartitionsSucceed(vs: seq<Volume>, offset: int)
    requires AllGptReady(vs) && offset >= 0 && offset % GptPartitionAlignment == 0
    ensures GptPartitionsFrom(vs, offset).Success? <==> forall i :: 0 <= i < |vs| ==> vs[i].device.value.length > 0
  {
    if vs != [] {
      var device := vs[0].device.value.length;
      var length := RoundUp(device);
      RoundUpIsLeast(device, 0);
      AlignedSum(offset, length, GptPartitionAlignment);
      RoundUpFixes(offset + length);
      ParseStyleName(PartitionStyle.Gpt);
      assert MiB == GptPartitionAlignment;
      var p := NewPartition(offset, length, StyleName(PartitionStyle.Gpt), vs[0].identity, Some(vs[0]), MiB);
      GptPartitionsStep(vs, offset, length, p, offset + length);
      assert p.Success? <==> device > 0;
      GptPartitionsSucceed(vs[1..], offset + length);
      assert forall i :: 1 <= i < |vs| ==> vs[i] == vs[1..][i - 1];
    }
  }

  /**
   * When the loop succeeds from an aligned offset it lays one partition per
   * volume end to end, starting at the offset, each as long as its device
   * rounded up to the alignment.
   */
  lemma {:induction false} GptPartitionsLayout(vs: seq<Volume>, offset: int)
    requires AllGptReady(vs) && offset >= 0 && offset % GptPartitionAlignment == 0
    requires GptPartitionsFrom(vs, offset).Success?
    ensures
      var ps := GptPartitionsFrom(vs, offset).value;
      |ps| == |vs| &&
      (forall i :: 0 <= i < |vs| ==> GptPartitionFor(ps[i], vs[i])) &&
      (vs != [] ==> ps[0].offset == offset) &&
      (forall i :: 0 <= i < |vs| - 1 ==> ps[i + 1].offset == End(ps[i]))
  {
    if vs != [] {
      var length := RoundUp(vs[0].device.value.length);
      RoundUpIsLeast(vs[0].device.value.length, 0);
      AlignedSum(offset, length, GptPartitionAlignment);
      RoundUpFixes(offset + length);
      ParseStyleName(PartitionStyle.Gpt);
      assert MiB == GptPartitionAlignment;
      GptPartitionsStep(vs, offset, length, NewPartition(offset, length, StyleName(PartitionStyle.Gpt), vs[0].identity, Some(vs[0]), MiB), offset + length);
      GptPartitionsLayout(vs[1..], offset + length);
      assert forall i :: 1 <= i < |vs| ==> vs[i] == vs[1..][i - 1];
    }
  }

  /** One turn of MakeGptDisk's loop, in terms of GptPartitionsFrom. */
  lemma {:induction false} GptPartitionsStep(vs: seq<Volume>, offset: int, length: int, partition: Result<Partition>, next: int)
    requires AllGptReady(vs) && vs != []
    requires length == RoundUp(vs[0].device.value.length) && next == RoundUp(offset + length)
    requires partition == NewPartition(offset, length, StyleName(PartitionStyle.Gpt), vs[0].identity, Some(vs[0]), MiB)
    ensures partition.Failure? ==> GptPartitionsFrom(vs, offset) == Failure(partition.error)
    ensures partition.Success? ==>
      GptPartitionsFrom(vs, offset) == Prepend([partition.value], GptPartitionsFrom(vs[1..], next))
  {
  }

  /** The layout MakeGptDisk builds: no disk identity, and room for the secondary table after the last partition. */
  function GptDiskOf(vs: seq<Volume>): Result<Disk>
    reads vs
    requires vs != [] && AllGptReady(vs)
  {
    var parts :- GptPartitionsFrom(vs, GptAlignedPartitionStart);
    GptPartitionsLayout(vs, GptAlignedPartitionStart);
    NewDisk(End(Last(parts)) + GptSecondaryTableLength, parts, None, [])
  }

  /** A disk MakeGptDisk builds is valid, has no identity and no logical partitions. */
  lemma {:induction false} GptDiskValid(vs: seq<Volume>)
    requires vs != [] && AllGptReady(vs) && GptDiskOf(vs).Success?
    ensures ValidDisk(GptDiskOf(vs).value) && GptDiskOf(vs).value.identity.None? && GptDiskOf(vs).value.logical == []
  {
    GptDiskOfParts(vs, GptPartitionsFrom(vs, GptAlignedPartitionStart).value);
  }

  /** How GptDiskOf unfolds once the loop has built its partitions. */
  lemma {:induction false} GptDiskOfParts(vs: seq<Volume>, parts: seq<Partition>)
    requires vs != [] && AllGptReady(vs) && GptPartitionsFrom(vs, GptAlignedPartitionStart) == Success(parts)
    ensures parts != [] && GptDiskOf(vs) == NewDisk(End(Last(parts)) + GptSecondaryTableLength, parts, None, [])
  {
    GptPartitionsLayout(vs, GptAlignedPartitionStart);
  }

  /** The loop of MakeGptDisk: partitions laid out from the aligned start, each next one at the aligned end of the last. */
  method BuildGptPartitions(vs: seq<Volume>) returns (r: Result<seq<Partition>>)
    requires AllGptReady(vs)
    ensures r == GptPartitionsFrom(vs, GptAlignedPartitionStart)
  {
    var parts: seq<Partition> := [];
    var offset := GptAlignedPartitionStart;
    assert vs[0..] == vs;
    PrependNothing(GptPartitionsFrom(vs, offset));
    for i := 0 to |vs|
      invariant GptPartitionsFrom(vs, GptAlignedPartitionStart) == Prepend(parts, GptPartitionsFrom(vs[i..], offset))
    {
      var volume := vs[i];
      ghost var rest := vs[i..];
      assert rest[0] == volume && rest[1..] == vs[i + 1..];
      var length := volume.device.value.length;
      if length % GptPartitionAlignment > 0 {
        length := length + (GptPartitionAlignment - length % GptPartitionAlignment);
      }
      assert length == RoundUp(volume.device.value.length);
      var partition := NewPartition(offset, length, StyleName(PartitionStyle.Gpt), volume.identity, Some(volume), MiB);
      if partition.Failure? {
        GptPartitionsStep(rest, offset, length, partition, RoundUp(offset + length));
        return Failure(partition.error);
      }
      var next := offset + length;
      ghost var end := next;
      if next % GptPartitionAlignment > 0 {
        next := next + (GptPartitionAlignment - next % GptPartitionAlignment);
      }
      assert next == RoundUp(end);
      GptPartitionsStep(rest, offset, length, partition, next);
      PrependOneMore(parts, partition.value, GptPartitionsFrom(vs[i + 1..], next));
      parts := parts + [partition.value];
      offset := next;
    }
    assert vs[|vs|..] == [] && parts + [] == parts;
    return Success(parts);
  }

  /** MakeGptDisk. */
  method MakeGptDisk(vs: seq<Volume>) returns (r: Result<Disk>)
    requires vs != [] && AllGptReady(vs)
    ensures r == GptDiskOf(vs)
  {
    var parts := BuildGptPartitions(vs);
    if parts.Failure? {
      GptDiskOfRejected(vs);
      return Failure(parts.error);
    }
    GptDiskOfParts(vs, parts.value);
    var length := End(Last(parts.value)) + GptSecondaryTableLength;
    r := NewDisk(length, parts.value, None, []);
  }

  /**
   * The shape of a disk MakeGptDisk builds: one GPT partition per volume, in
   * order, the first at the aligned partition start and each next one where
   * the previous ends, each as long as its device rounded up to the
   * alignment; the disk leaves room for the secondary table after the last.
   */
  lemma {:induction false} GptDiskShape(vs: seq<Volume>)
    requires vs != [] && AllGptReady(vs) && GptDiskOf(vs).Success?
    ensures
      var d := GptDiskOf(vs).value;
      |d.partitions| == |vs| &&
      (forall i :: 0 <= i < |vs| ==> GptPartitionFor(d.partitions[i], vs[i])) &&
      d.partitions[0].offset == GptAlignedPartitionStart &&
      (forall i :: 0 <= i < |vs| - 1 ==> d.partitions[i + 1].offset == End(d.partitions[i])) &&
      d.length == End(Last(d.partitions)) + GptSecondaryTableLength
  {
    var parts := GptPartitionsFrom(vs, GptAlignedPartitionStart).value;
    GptPartitionsLayout(vs, GptAlignedPartitionStart);
    GptDiskOfParts(vs, parts);
  }

  /** Each volume's identity is congruent with the next volume's, where it has one. */
  predicate IdentitiesChain(vs: seq<Volume>) {
    forall i :: 0 <= i < |vs| - 1 ==> vs[i].identity.None? || Congruent(vs[i].identity.value, vs[i + 1].identity)
  }

  /**
   * MakeGptDisk succeeds exactly when no device is empty and consecutive
   * volume identities are congruent.
   */
  lemma {:induction false} GptDiskSucceeds(vs: seq<Volume>)
    requires vs != [] && AllGptReady(vs)
    ensures GptDiskOf(vs).Success? <==>
      (forall i :: 0 <= i < |vs| ==> vs[i].device.value.length > 0) && IdentitiesChain(vs)
  {
    if GptPartitionsFrom(vs, GptAlignedPartitionStart).Success? {
      GptDiskOfLaidOut(vs);
    } else {
      GptDiskOfRejected(vs);
    }
  }

  /** GptDiskSucceeds once the loop has laid out the partitions. */
  lemma {:induction false} GptDiskOfLaidOut(vs: seq<Volume>)
    requires vs != [] && AllGptReady(vs) && GptPartitionsFrom(vs, GptAlignedPartitionStart).Success?
    ensures GptDiskOf(vs).Success? <==>
      (forall i :: 0 <= i < |vs| ==> vs[i].device.value.length > 0) && IdentitiesChain(vs)
  {
    var ps := GptPartitionsFrom(vs, GptAlignedPartitionStart).value;
    GptPartitionsSucceed(vs, GptAlignedPartitionStart);
    GptPartitionsLayout(vs, GptAlignedPartitionStart);
    GptDiskOfParts(vs, ps);
    GptLayoutSane(ps, vs);
    TrailingRoomValid(ps, End(Last(ps)) + GptSecondaryTableLength);
  }

  /** GptDiskSucceeds when the loop rejects a volume: the builder fails with the loop's error. */
  lemma {:induction false} GptDiskOfRejected(vs: seq<Volume>)
    requires vs != [] && AllGptReady(vs) && GptPartitionsFrom(vs, GptAlignedPartitionStart).Failure?
    ensures GptDiskOf(vs) == Failure(GptPartitionsFrom(vs, GptAlignedPartitionStart).error)
    ensures GptDiskOf(vs).Success? <==>
      (forall i :: 0 <= i < |vs| ==> vs[i].device.value.length > 0) && IdentitiesChain(vs)
  {
    GptPartitionsSucceed(vs, GptAlignedPartitionStart);
  }

  /** Partitions laid end to end for the volumes are sane exactly when the volume identities chain. */
  lemma {:induction false} GptLayoutSane(ps: seq<Partition>, vs: seq<Volume>)
    requires AllGptReady(vs) && |ps| == |vs|
    requires forall i :: 0 <= i < |vs| ==> GptPartitionFor(ps[i], vs[i])
    requires forall i :: 0 <= i < |vs| - 1 ==> ps[i + 1].offset == End(ps[i])
    ensures Sane(ps) <==> IdentitiesChain(vs)
  {
    CountExtendedZero(ps);
    assert forall i :: 0 <= i < |ps| - 1 ==> Precedes(ps[i], ps[i + 1]);
  }

  /** The constructor accepts a disk without identity or logical partitions that ends after its last partition when its partitions are sane. */
  lemma {:induction false} TrailingRoomValid(ps: seq<Partition>, length: int)
    requires ps != [] && End(Last(ps)) <= length
    ensures NewDisk(length, ps, None, []).Success? <==> Sane(ps)
  {
    assert ValidDisk(Disk(length, None, ps, [])) <==> Sane(ps);
  }

  /** GPT identities are congruent with one another, so volumes that all carry one always chain. */
  lemma {:induction false} GptIdentitiesChain(vs: seq<Volume>)
    requires forall i :: 0 <= i < |vs| ==> vs[i].identity.Some? && vs[i].identity.value.flavor == Flavor.Gpt
    ensures IdentitiesChain(vs)
  {
    forall i | 0 <= i < |vs| - 1
      ensures Congruent(vs[i].identity.value, vs[i + 1].identity)
    {
      CongruentCases(vs[i].identity.value, vs[i + 1].identity.value);
    }
  }

  /** The volumes of a disk MakeGptDisk builds are its arguments, in order. */
  lemma {:induction false} GptDiskVolumes(vs: seq<Volume>)
    requires vs != [] && AllGptReady(vs) && GptDiskOf(vs).Success?
    ensures DiskVolumes(GptDiskOf(vs).value) == vs
  {
    GptDiskShape(vs);
    var d := GptDiskOf(vs).value;
    assert d.partitions + [] == d.partitions;
    VolumesOfEach(d.partitions, vs);
  }
}
