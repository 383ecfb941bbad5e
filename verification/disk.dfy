/** Disks: the layout invariants, accessors, codec and equality of p2v/disk.py. */
module Disks {
  import opened Wrappers
  import opened Units
  import opened Identities
  import opened Volumes
  import opened Partitions

  /** MasterBootRecord.Length: one sector. */
  const MasterBootRecordLength: int := 512

  /** BootHeader.Length: the boot code area ahead of the first partition. */
  const BootHeaderLength: int := Mebibytes(1)

  /** The elements of s that satisfy f, in order. */
  function Filter<T>(f: T -> bool, s: seq<T>): (r: seq<T>)
    ensures |r| <= |s|
    ensures forall k :: 0 <= k < |r| ==> r[k] in s && f(r[k])
    ensures forall i :: 0 <= i < |s| && f(s[i]) ==> s[i] in r
  {
    if s == [] then [] else (if f(s[0]) then [s[0]] else []) + Filter(f, s[1..])
  }

  /** Filtering keeps the order of s: the filter of two runs is the filter of the first followed by that of the second. */
  lemma {:induction false} FilterAppend<T>(f: T -> bool, s: seq<T>, t: seq<T>)
    ensures Filter(f, s + t) == Filter(f, s) + Filter(f, t)
  {
    if s == [] {
      assert s + t == t;
    } else {
      assert (s + t)[0] == s[0] && (s + t)[1..] == s[1..] + t;
      FilterAppend(f, s[1..], t);
    }
  }

  /** A single element survives the filter exactly when it satisfies f. */
  lemma {:induction false} FilterSingle<T>(f: T -> bool, x: T)
    ensures Filter(f, [x]) == if f(x) then [x] else []
  {
    assert [x][1..] == [];
  }

  /** Nothing survives the filter when no element satisfies f. */
  lemma {:induction false} FilterNone<T>(f: T -> bool, s: seq<T>)
    requires forall k :: 0 <= k < |s| ==> !f(s[k])
    ensures Filter(f, s) == []
  {
    if s != [] {
      assert forall k :: 0 <= k < |s[1..]| ==> s[1..][k] == s[k + 1];
      FilterNone(f, s[1..]);
    }
  }

  /** When no two positions of s satisfy f, at most one element survives the filter. */
  lemma {:induction false} FilterAtMostOne<T>(f: T -> bool, s: seq<T>)
    requires forall i, j :: 0 <= i < j < |s| ==> !(f(s[i]) && f(s[j]))
    ensures |Filter(f, s)| <= 1
  {
    if s != [] {
      if f(s[0]) {
        forall k | 0 <= k < |s[1..]| ensures !f(s[1..][k]) {
          assert s[1..][k] == s[k + 1];
        }
        FilterNone(f, s[1..]);
      } else {
        FilterAtMostOne(f, s[1..]);
      }
    }
  }

  /** Two positions satisfying f leave at least two elements after the filter. */
  lemma {:induction false} FilterAtLeastTwo<T>(f: T -> bool, s: seq<T>, i: int, j: int)
    requires 0 <= i < j < |s| && f(s[i]) && f(s[j])
    ensures |Filter(f, s)| >= 2
  {
    if i == 0 {
      assert s[1..][j - 1] == s[j];
    } else {
      FilterAtLeastTwo(f, s[1..], i - 1, j - 1);
    }
  }

  /** find_only: the single element satisfying f, None when there is none; more than one fails its assertion. */
  function FindOnly<T>(f: T -> bool, s: seq<T>): (r: Result<Option<T>>)
    ensures r.Failure? <==> exists i, j :: 0 <= i < j < |s| && f(s[i]) && f(s[j])
    ensures r.Success? && r.value.Some? ==> r.value.value in s && f(r.value.value)
    ensures r.Success? ==> (r.value.None? <==> forall i :: 0 <= i < |s| ==> !f(s[i]))
  {
    var filtered := Filter(f, s);
    if |filtered| > 1 then
      assert exists i, j :: 0 <= i < j < |s| && f(s[i]) && f(s[j]) by {
        if !exists i, j :: 0 <= i < j < |s| && f(s[i]) && f(s[j]) {
          FilterAtMostOne(f, s);
        }
      }
      Failure(NotUnique)
    else
      assert !exists i, j :: 0 <= i < j < |s| && f(s[i]) && f(s[j]) by {
        if i, j :| 0 <= i < j < |s| && f(s[i]) && f(s[j]) {
          FilterAtLeastTwo(f, s, i, j);
        }
      }
      if |filtered| == 0 then
        Success(None)
      else
        Success(Some(filtered[0]))
  }

  datatype Disk = Disk(length: int, identity: Option<Identity>, partitions: seq<Partition>, logical: seq<Partition>)

  function Last(ps: seq<Partition>): Partition
    requires ps != []
  {
    ps[|ps| - 1]
  }

  /** The logical partitions are sane and lie in the extended partition, after its boot header. */
  predicate LogicalWithinExtended(ps: seq<Partition>, ls: seq<Partition>) {
    ls == [] ||
    exists k :: 0 <= k < |ps| && IsExtended(ps[k]) && Sane(ls) &&
      ps[k].offset + BootHeaderLength <= ls[0].offset && End(Last(ls)) <= End(ps[k])
  }

  /** The invariants the Disk constructor establishes. */
  predicate ValidDisk(d: Disk) {
    Sane(d.partitions) &&
    LogicalWithinExtended(d.partitions, d.logical) &&
    (d.partitions != [] ==>
      (d.identity.Some? && d.partitions[0].identity.Some? ==> Congruent(d.partitions[0].identity.value, d.identity)) &&
      End(Last(d.partitions)) <= d.length)
  }

  /** The logical-partition check of the constructor: find the extended partition, then CheckBounds. */
  function LogicalCheck(ps: seq<Partition>, ls: seq<Partition>): Result<bool> {
    if ls == [] then Success(true)
    else
      var ext :- FindOnly(IsExtended, ps);
      if ext.None? then Failure(MissingExtendedPartition)
      else CheckBounds(ext.value.offset + BootHeaderLength, End(ext.value), ls)
  }

  /** Given sane primary partitions, the logical check passes exactly when the logical partitions fit. */
  lemma {:induction false} LogicalCheckMeaning(ps: seq<Partition>, ls: seq<Partition>)
    requires Sane(ps)
    ensures LogicalCheck(ps, ls) == Success(true) <==> LogicalWithinExtended(ps, ls)
  {
    if ls != [] {
      forall i, j | 0 <= i < j < |ps| ensures !(IsExtended(ps[i]) && IsExtended(ps[j])) {
        SaneExtendedUnique(ps, i, j);
      }
      var ext := FindOnly(IsExtended, ps);
      if ext.value.Some? {
        var e := ext.value.value;
        var k0 :| 0 <= k0 < |ps| && ps[k0] == e;
        forall k | 0 <= k < |ps| && IsExtended(ps[k]) ensures ps[k] == e {
          if k < k0 {
            SaneExtendedUnique(ps, k, k0);
          } else if k0 < k {
            SaneExtendedUnique(ps, k0, k);
          }
        }
      }
    }
  }

  /** The Disk constructor: sanity, logical bounds, identity congruence, length bound. */
  function NewDisk(length: int, partitions: seq<Partition>, identity: Option<Identity>, logical: seq<Partition>): (r: Result<Disk>)
    ensures r.Success? <==> ValidDisk(Disk(length, identity, partitions, logical))
    ensures r.Success? ==> r.value == Disk(length, identity, partitions, logical)
    ensures !Sane(partitions) ==> r == Failure(SanityCheckFailed)
  {
    if !Sane(partitions) then Failure(SanityCheckFailed)
    else
      LogicalCheckMeaning(partitions, logical);
      var fits :- LogicalCheck(partitions, logical);
      if !fits then Failure(LogicalBoundsExceeded)
      else if partitions != [] && identity.Some? && partitions[0].identity.Some? &&
              !Congruent(partitions[0].identity.value, identity) then Failure(IdentityMismatch)
      else if partitions != [] && End(Last(partitions)) > length then Failure(LengthExceeded)
      else Success(Disk(length, identity, partitions, logical))
  }

  /** Disk.get_partitions: the table entries followed by the logical partitions. */
  function GetPartitions(d: Disk): (r: seq<Partition>)
    ensures |r| == |d.partitions| + |d.logical|
    ensures r[..|d.partitions|] == d.partitions && r[|d.partitions|..] == d.logical
  {
    d.partitions + d.logical
  }

  /** In a valid disk every partition, logical ones included, ends within the disk. */
  lemma {:induction false} ValidDiskBounds(d: Disk)
    requires ValidDisk(d)
    ensures forall i :: 0 <= i < |GetPartitions(d)| ==> End(GetPartitions(d)[i]) <= d.length
    ensures d.logical != [] ==>
      exists k :: 0 <= k < |d.partitions| && IsExtended(d.partitions[k]) &&
        forall i :: 0 <= i < |d.logical| ==>
          d.partitions[k].offset + BootHeaderLength <= d.logical[i].offset && End(d.logical[i]) <= End(d.partitions[k])
  {
    var ps, all := d.partitions, GetPartitions(d);
    forall i | 0 <= i < |ps| ensures End(ps[i]) <= d.length {
      if i < |ps| - 1 {
        SaneOrdered(ps, i, |ps| - 1);
      }
    }
    if d.logical != [] {
      var k :| 0 <= k < |ps| && IsExtended(ps[k]) && Sane(d.logical) &&
        ps[k].offset + BootHeaderLength <= d.logical[0].offset && End(Last(d.logical)) <= End(ps[k]);
      CheckBoundsWithin(ps[k].offset + BootHeaderLength, End(ps[k]), d.logical);
      assert End(ps[k]) <= d.length;
    }
    forall i | 0 <= i < |all| ensures End(all[i]) <= d.length {
      if i >= |ps| {
        assert all[i] == d.logical[i - |ps|];
      }
    }
  }

  /** Disk.get_boot_partition: the only table entry whose volume is the system drive. */
  function GetBootPartition(d: Disk): (r: Result<Option<Partition>>)
    ensures r.Failure? <==>
      exists i, j :: 0 <= i < j < |d.partitions| && IsBootPartition(d.partitions[i]) && IsBootPartition(d.partitions[j])
    ensures r.Success? && r.value.Some? ==> r.value.value in d.partitions && IsBootPartition(r.value.value)
  {
    FindOnly(IsBootPartition, d.partitions)
  }

  /** Disk.is_boot_disk: some table entry (not a logical partition) holds the system drive. */
  function IsBootDisk(d: Disk): (r: Result<bool>)
    ensures r.Success? <==> GetBootPartition(d).Success?
    ensures r.Success? ==> (r.value <==> exists i :: 0 <= i < |d.partitions| && IsBootPartition(d.partitions[i]))
  {
    var boot :- GetBootPartition(d);
    Success(boot.Some?)
  }

  predicate OnDrive(p: Partition, drive: string) {
    p.volume.Some? && p.volume.value.drive == Some(drive)
  }

  /** Disk.partition_number: one plus the index of the first partition whose volume sits on the drive. */
  method PartitionNumber(d: Disk, drive: string) returns (r: Option<nat>)
    ensures r.None? <==> forall i :: 0 <= i < |GetPartitions(d)| ==> !OnDrive(GetPartitions(d)[i], drive)
    ensures r.Some? ==> 1 <= r.value <= |GetPartitions(d)| && OnDrive(GetPartitions(d)[r.value - 1], drive) &&
                        forall j :: 0 <= j < r.value - 1 ==> !OnDrive(GetPartitions(d)[j], drive)
  {
    var all := GetPartitions(d);
    for i := 0 to |all|
      invariant forall j :: 0 <= j < i ==> !OnDrive(all[j], drive)
    {
      var partition := all[i];
      if partition.volume.Some? {
        if partition.volume.value.drive.Some? {
          if partition.volume.value.drive.value == drive {
            return Some(i + 1);
          }
        }
      }
    }
    return None;
  }

  /** The volumes of the partitions that have one, in partition order. */
  function VolumesOf(ps: seq<Partition>): seq<Volume> {
    if ps == [] then []
    else (if ps[0].volume.Some? then [ps[0].volume.value] else []) + VolumesOf(ps[1..])
  }

  /** Every volume listed comes from one of the partitions, and every partition's volume is listed. */
  lemma {:induction false} VolumesOfMembers(ps: seq<Partition>)
    ensures |VolumesOf(ps)| <= |ps|
    ensures forall k :: 0 <= k < |VolumesOf(ps)| ==> exists i :: 0 <= i < |ps| && ps[i].volume == Some(VolumesOf(ps)[k])
    ensures forall i :: 0 <= i < |ps| && ps[i].volume.Some? ==> ps[i].volume.value in VolumesOf(ps)
  {
    if ps != [] {
      VolumesOfMembers(ps[1..]);
      assert forall i :: 1 <= i < |ps| ==> ps[i] == ps[1..][i - 1];
    }
  }

  /**
   * The volume list is built piece by piece in partition order: a partition
   * contributes its own volume, one entry, or nothing, and the lists of two
   * runs of partitions are concatenated.
   */
  lemma {:induction false} VolumesOfSingle(p: Partition)
    ensures VolumesOf([p]) == if p.volume.Some? then [p.volume.value] else []
  {
    assert [p][1..] == [];
  }

  /** The volumes of two runs of partitions are the volumes of the first followed by those of the second. */
  lemma {:induction false} VolumesOfAppend(ps: seq<Partition>, qs: seq<Partition>)
    ensures VolumesOf(ps + qs) == VolumesOf(ps) + VolumesOf(qs)
  {
    if ps == [] {
      assert ps + qs == qs;
    } else {
      var head := if ps[0].volume.Some? then [ps[0].volume.value] else [];
      assert (ps + qs)[0] == ps[0] && (ps + qs)[1..] == ps[1..] + qs;
      assert VolumesOf(ps + qs) == head + VolumesOf(ps[1..] + qs);
      VolumesOfAppend(ps[1..], qs);
      assert head + (VolumesOf(ps[1..]) + VolumesOf(qs)) == (head + VolumesOf(ps[1..])) + VolumesOf(qs);
    }
  }

  /** When every partition carries the corresponding volume, the volumes are exactly those. */
  lemma {:induction false} VolumesOfEach(ps: seq<Partition>, vs: seq<Volume>)
    requires |ps| == |vs| && forall i :: 0 <= i < |ps| ==> ps[i].volume == Some(vs[i])
    ensures VolumesOf(ps) == vs
  {
    if ps != [] {
      VolumesOfEach(ps[1..], vs[1..]);
      assert [vs[0]] + vs[1..] == vs;
    }
  }

  /** Disk.volumes: the volumes of get_partitions(), skipping partitions without one. */
  function DiskVolumes(d: Disk): seq<Volume> {
    VolumesOf(GetPartitions(d))
  }

  /**
   * The volumes of a disk are those of its table entries followed by those of
   * its logical partitions, and exactly those its partitions carry.
   */
  lemma {:induction false} DiskVolumesMembers(d: Disk)
    ensures DiskVolumes(d) == VolumesOf(d.partitions) + VolumesOf(d.logical)
    ensures forall k :: 0 <= k < |DiskVolumes(d)| ==>
      exists i :: 0 <= i < |GetPartitions(d)| && GetPartitions(d)[i].volume == Some(DiskVolumes(d)[k])
    ensures forall i :: 0 <= i < |GetPartitions(d)| && GetPartitions(d)[i].volume.Some? ==>
      GetPartitions(d)[i].volume.value in DiskVolumes(d)
  {
    VolumesOfMembers(GetPartitions(d));
    VolumesOfAppend(d.partitions, d.logical);
  }

  /** The identity _is_flavored consults: the disk's own, else the first partition's. */
  function FlavorIdentity(d: Disk): Result<Option<Identity>> {
    if d.identity.Some? then Success(d.identity)
    else if GetPartitions(d) == [] then Failure(NoPartitions)
    else Success(GetPartitions(d)[0].identity)
  }

  /** Disk._is_flavored: an unknown flavor fails, an empty disk without identity fails. */
  function IsFlavored(d: Disk, flavor: string): (r: Result<bool>)
    ensures flavor != "gpt" && flavor != "mbr" ==> r == Failure(NoSuchFlavor)
    ensures flavor == "gpt" || flavor == "mbr" ==> (r.Success? <==> FlavorIdentity(d).Success?)
    ensures (flavor == "gpt" || flavor == "mbr") && d.identity.Some? ==>
      r == Success(if flavor == "gpt" then Identities.IsGpt(d.identity.value) else Identities.IsMbr(d.identity.value))
    ensures (flavor == "gpt" || flavor == "mbr") && d.identity.None? && GetPartitions(d) == [] ==>
      r == Failure(NoPartitions)
    ensures (flavor == "gpt" || flavor == "mbr") && d.identity.None? && GetPartitions(d) != [] ==>
      var first := GetPartitions(d)[0];
      r == if first.identity.None? then Success(false)
           else Success(if flavor == "gpt" then Identities.IsGpt(first.identity.value) else Identities.IsMbr(first.identity.value))
  {
    if flavor != "gpt" && flavor != "mbr" then Failure(NoSuchFlavor)
    else
      var id :- FlavorIdentity(d);
      match id
      case None => Success(false)
      case Some(i) => Success(if flavor == "gpt" then Identities.IsGpt(i) else Identities.IsMbr(i))
  }

  function IsMbr(d: Disk): Result<bool> {
    IsFlavored(d, "mbr")
  }

  function IsGpt(d: Disk): Result<bool> {
    IsFlavored(d, "gpt")
  }

  /** A disk is never both MBR and GPT, and is neither exactly when no identity is found. */
  lemma {:induction false} MbrGptExclusive(d: Disk)
    ensures IsMbr(d).Success? <==> IsGpt(d).Success?
    ensures !(IsMbr(d) == Success(true) && IsGpt(d) == Success(true))
    ensures IsMbr(d) == Success(false) && IsGpt(d) == Success(false) <==> FlavorIdentity(d) == Success(None)
  {
    match FlavorIdentity(d)
    case Failure(_) =>
    case Success(id) =>
      if id.Some? {
        MbrXorGpt(id.value);
      }
  }

  /**
   * Disk.is_unspecified as written: `is not False` holds for None and for
   * every identity, so once the disk has no identity of its own the answer is
   * true whatever the first partition carries.
   */
  function IsUnspecifiedAsWritten(d: Disk): (r: Result<bool>)
    ensures r.Success? <==> d.identity.Some? || GetPartitions(d) != []
    ensures r.Success? ==> (r.value <==> d.identity.None?)
  {
    if d.identity.Some? then Success(false)
    else if GetPartitions(d) == [] then Failure(NoPartitions)
    else Success(true)
  }

  /** A disk whose first partition carries a GPT identity is reported both GPT and unspecified. */
  lemma {:induction false} IsUnspecifiedAsWrittenContradicts(d: Disk)
    requires d.identity.None? && d.partitions != [] && d.partitions[0].identity.Some?
    requires d.partitions[0].identity.value.flavor == Flavor.Gpt
    ensures IsUnspecifiedAsWritten(d) == Success(true) && IsGpt(d) == Success(true)
  {
    assert GetPartitions(d)[0] == d.partitions[0];
  }

  /** Disk.is_unspecified as evidently intended: neither the disk nor its first partition has an identity. */
  function IsUnspecified(d: Disk): (r: Result<bool>)
    ensures r.Success? <==> IsMbr(d).Success?
    ensures r == Success(true) <==> IsMbr(d) == Success(false) && IsGpt(d) == Success(false)
  {
    MbrGptExclusive(d);
    if d.identity.Some? then Success(false)
    else if GetPartitions(d) == [] then Failure(NoPartitions)
    else Success(GetPartitions(d)[0].identity.None?)
  }

  /** Position-wise equal partition lists of the same length. */
  predicate SameShape(ps: seq<Partition>, qs: seq<Partition>) {
    |ps| == |qs| && forall i :: 0 <= i < |ps| ==> PartitionEq(ps[i], qs[i])
  }

  /** Disk.__eq__ as evidently intended: identity, length and both partition lists in full. */
  predicate DiskEq(d: Disk, e: Disk) {
    d.identity == e.identity && d.length == e.length &&
    SameShape(d.partitions, e.partitions) && SameShape(d.logical, e.logical)
  }

  /** Equal disks have partition lists of equal lengths, and equality is an equivalence. */
  lemma {:induction false} DiskEqEquivalence(d: Disk, e: Disk, f: Disk)
    ensures DiskEq(d, d)
    ensures DiskEq(d, e) ==> DiskEq(e, d) && |d.partitions| == |e.partitions| && |d.logical| == |e.logical|
    ensures DiskEq(d, e) && DiskEq(e, f) ==> DiskEq(d, f)
  {
    if DiskEq(d, e) {
      forall i | 0 <= i < |d.partitions| ensures PartitionEq(e.partitions[i], d.partitions[i]) {
        assert PartitionEq(d.partitions[i], e.partitions[i]);
      }
      forall i | 0 <= i < |d.logical| ensures PartitionEq(e.logical[i], d.logical[i]) {
        assert PartitionEq(d.logical[i], e.logical[i]);
      }
    }
  }

  /** The zip loops of Disk.__eq__: pairs up to the shorter list, each compared with Partition.__ne__. */
  function ZipEq(ps: seq<Partition>, qs: seq<Partition>): Result<bool> {
    if ps == [] || qs == [] then Success(true)
    else
      var same :- PartitionEqAsWritten(ps[0], qs[0]);
      if !same then Success(false) else ZipEq(ps[1..], qs[1..])
  }

  /** The number of pairs zip forms from two lists: the shorter length. */
  function Common(ps: seq<Partition>, qs: seq<Partition>): (m: nat)
    ensures m <= |ps| && m <= |qs| && (m == |ps| || m == |qs|)
  {
    if |ps| < |qs| then |ps| else |qs|
  }

  /**
   * Disk.__eq__ as written: when no comparison raises, the disks are equal
   * exactly when identity and length agree and the partition lists agree on
   * their common prefixes, whatever the longer lists hold beyond them.
   */
  function DiskEqAsWritten(d: Disk, e: Disk): (r: Result<bool>)
    ensures d.identity != e.identity || d.length != e.length ==> r == Success(false)
    ensures r.Success? ==>
      (r.value <==>
         (d.identity == e.identity && d.length == e.length &&
          SameShape(d.partitions[..Common(d.partitions, e.partitions)], e.partitions[..Common(d.partitions, e.partitions)]) &&
          SameShape(d.logical[..Common(d.logical, e.logical)], e.logical[..Common(d.logical, e.logical)])))
  {
    if d.identity != e.identity then Success(false)
    else if d.length != e.length then Success(false)
    else
      ZipEqTruncated(d.partitions, e.partitions);
      ZipEqTruncated(d.logical, e.logical);
      var same :- ZipEq(d.partitions, e.partitions);
      if !same then Success(false) else ZipEq(d.logical, e.logical)
  }

  /** The zip loop looks only at the common prefix of the two lists. */
  lemma {:induction false} ZipEqPrefix(ps: seq<Partition>, qs: seq<Partition>)
    ensures ZipEq(ps, qs) == ZipEq(ps[..Common(ps, qs)], qs[..Common(ps, qs)])
  {
    var m := Common(ps, qs);
    if ps != [] && qs != [] {
      ZipEqPrefix(ps[1..], qs[1..]);
      assert Common(ps[1..], qs[1..]) == m - 1;
      assert ps[..m][0] == ps[0] && qs[..m][0] == qs[0];
      assert ps[..m][1..] == ps[1..][..m - 1];
      assert qs[..m][1..] == qs[1..][..m - 1];
    }
  }

  /** Whenever the zip loop completes, it answers the position-wise comparison of the common prefixes. */
  lemma {:induction false} ZipEqTruncated(ps: seq<Partition>, qs: seq<Partition>)
    ensures ZipEq(ps, qs).Success? ==>
      ZipEq(ps, qs).value == SameShape(ps[..Common(ps, qs)], qs[..Common(ps, qs)])
  {
    ZipEqPrefix(ps, qs);
    if ZipEq(ps, qs).Success? {
      ZipEqAgrees(ps[..Common(ps, qs)], qs[..Common(ps, qs)]);
    }
  }

  /** On lists of equal length, zip comparison that completes agrees with the intended one. */
  lemma {:induction false} ZipEqAgrees(ps: seq<Partition>, qs: seq<Partition>)
    requires |ps| == |qs| && ZipEq(ps, qs).Success?
    ensures ZipEq(ps, qs).value == SameShape(ps, qs)
  {
    if ps != [] {
      if PartitionEq(ps[0], qs[0]) {
        ZipEqAgrees(ps[1..], qs[1..]);
        if SameShape(ps[1..], qs[1..]) {
          forall i | 0 <= i < |ps| ensures PartitionEq(ps[i], qs[i]) {
            if i > 0 {
              assert ps[1..][i - 1] == ps[i] && qs[1..][i - 1] == qs[i];
            }
          }
        } else {
          var i :| 0 <= i < |ps| - 1 && !PartitionEq(ps[1..][i], qs[1..][i]);
          assert !PartitionEq(ps[i + 1], qs[i + 1]);
        }
      }
    }
  }

  /** When the partition lists have equal lengths and no comparison raises, both equalities agree. */
  lemma {:induction false} DiskEqAsWrittenAgrees(d: Disk, e: Disk)
    requires |d.partitions| == |e.partitions| && |d.logical| == |e.logical|
    requires DiskEqAsWritten(d, e).Success?
    ensures DiskEqAsWritten(d, e).value == DiskEq(d, e)
  {
    if d.identity == e.identity && d.length == e.length {
      ZipEqAgrees(d.partitions, e.partitions);
      if SameShape(d.partitions, e.partitions) {
        ZipEqAgrees(d.logical, e.logical);
      }
    }
  }

  /** A disk with partitions compares equal, as written, to the same disk with none. */
  lemma {:induction false} DiskEqAsWrittenIgnoresMissing(d: Disk)
    requires d.partitions != []
    ensures DiskEqAsWritten(d, d.(partitions := [], logical := [])) == Success(true)
    ensures !DiskEq(d, d.(partitions := [], logical := []))
  {
  }

  /** The dictionary Disk.encode produces. */
  datatype EncodedDisk = EncodedDisk(
    length: int, identity: Option<string>, partitions: seq<EncodedPartition>, logical: seq<EncodedPartition>)

  function EncodePartitions(ps: seq<Partition>): (es: seq<EncodedPartition>)
    ensures |es| == |ps| && forall i :: 0 <= i < |ps| ==> es[i] == EncodePartition(ps[i])
  {
    seq(|ps|, i requires 0 <= i < |ps| => EncodePartition(ps[i]))
  }

  function EncodeDisk(d: Disk): EncodedDisk {
    EncodedDisk(d.length, if d.identity.Some? then Some(Encode(d.identity.value)) else None,
                EncodePartitions(d.partitions), EncodePartitions(d.logical))
  }

  predicate AllDecodable(es: seq<EncodedPartition>) {
    forall i :: 0 <= i < |es| ==> PartitionDecodable(es[i])
  }

  /** ps is what the list comprehension of Disk.decode builds from es. */
  predicate AllDecodedFrom(ps: seq<Partition>, es: seq<EncodedPartition>) {
    |ps| == |es| && forall i :: 0 <= i < |es| ==> WellFormed(ps[i]) && DecodedFrom(ps[i], es[i])
  }

  /** d is what Disk.decode builds from e. */
  predicate DiskDecodedFrom(d: Disk, e: EncodedDisk) {
    d.length == e.length && Identities.Decode(e.identity) == Success(d.identity) &&
    AllDecodedFrom(d.partitions, e.partitions) && AllDecodedFrom(d.logical, e.logical)
  }

  /** The comprehension [Partition.Decode(e) for e in es]: stops at the first failure. */
  method DecodePartitions(es: seq<EncodedPartition>) returns (r: Result<seq<Partition>>)
    ensures r.Success? <==> AllDecodable(es)
    ensures r.Success? ==> AllDecodedFrom(r.value, es)
  {
    var ps: seq<Partition> := [];
    for i := 0 to |es|
      invariant |ps| == i
      invariant forall j :: 0 <= j < i ==> PartitionDecodable(es[j]) && WellFormed(ps[j]) && DecodedFrom(ps[j], es[j])
    {
      var p := DecodePartition(es[i]);
      if p.Failure? {
        return Failure(p.error);
      }
      ps := ps + [p.value];
    }
    return Success(ps);
  }

  /** Two partitions decoded from the same dictionary are equal. */
  lemma {:induction false} DecodedFromUnique(p: Partition, q: Partition, e: EncodedPartition)
    requires DecodedFrom(p, e) && DecodedFrom(q, e)
    ensures PartitionEq(p, q)
  {
    ParseStyleName(p.style);
    ParseStyleName(q.style);
  }

  /** Two disks decoded from the same dictionary are equal. */
  lemma {:induction false} DiskDecodedFromUnique(d: Disk, d': Disk, e: EncodedDisk)
    requires DiskDecodedFrom(d, e) && DiskDecodedFrom(d', e)
    ensures DiskEq(d, d')
  {
    forall i | 0 <= i < |d.partitions| ensures PartitionEq(d.partitions[i], d'.partitions[i]) {
      DecodedFromUnique(d.partitions[i], d'.partitions[i], e.partitions[i]);
    }
    forall i | 0 <= i < |d.logical| ensures PartitionEq(d.logical[i], d'.logical[i]) {
      DecodedFromUnique(d.logical[i], d'.logical[i], e.logical[i]);
    }
  }

  /** Counting extended partitions looks only at the styles. */
  lemma {:induction false} CountExtendedSameShape(ps: seq<Partition>, qs: seq<Partition>)
    requires SameShape(ps, qs)
    ensures CountExtended(ps) == CountExtended(qs)
  {
    if ps != [] {
      var n := |ps| - 1;
      assert SameShape(ps[..n], qs[..n]) by {
        forall i | 0 <= i < n ensures PartitionEq(ps[..n][i], qs[..n][i]) {
          assert ps[..n][i] == ps[i] && qs[..n][i] == qs[i];
        }
      }
      CountExtendedSameShape(ps[..n], qs[..n]);
      assert PartitionEq(ps[n], qs[n]);
    }
  }

  /** Sanity looks only at what equality compares. */
  lemma {:induction false} SaneSameShape(ps: seq<Partition>, qs: seq<Partition>)
    requires SameShape(ps, qs)
    ensures Sane(ps) == Sane(qs)
  {
    CountExtendedSameShape(ps, qs);
    if |ps| > 1 {
      assert PartitionEq(ps[0], qs[0]);
      forall i | 0 <= i < |ps| - 1
        ensures PartitionCongruent(ps[i], ps[i + 1]) == PartitionCongruent(qs[i], qs[i + 1])
        ensures Precedes(ps[i], ps[i + 1]) == Precedes(qs[i], qs[i + 1])
      {
        assert PartitionEq(ps[i], qs[i]) && PartitionEq(ps[i + 1], qs[i + 1]);
      }
      forall i | 0 <= i < |ps| ensures IsLogical(ps[i]) == IsLogical(qs[i]) {
        assert PartitionEq(ps[i], qs[i]);
      }
    }
  }

  /** The disk invariants look only at what equality compares. */
  lemma {:induction false} ValidDiskSameShape(d: Disk, e: Disk)
    requires DiskEq(d, e)
    ensures ValidDisk(d) == ValidDisk(e)
  {
    SaneSameShape(d.partitions, e.partitions);
    SaneSameShape(d.logical, e.logical);
    if d.logical != [] {
      assert PartitionEq(d.logical[0], e.logical[0]);
      assert PartitionEq(Last(d.logical), Last(e.logical));
      forall k | 0 <= k < |d.partitions|
        ensures IsExtended(d.partitions[k]) == IsExtended(e.partitions[k])
        ensures d.partitions[k].offset == e.partitions[k].offset && End(d.partitions[k]) == End(e.partitions[k])
      {
        assert PartitionEq(d.partitions[k], e.partitions[k]);
      }
    }
    if d.partitions != [] {
      assert PartitionEq(d.partitions[0], e.partitions[0]);
      assert PartitionEq(Last(d.partitions), Last(e.partitions));
    }
  }

  /** Disk.decode: identity, partitions, logical partitions, then the validating constructor. */
  method DecodeDisk(e: EncodedDisk) returns (r: Result<Disk>)
    ensures r.Success? ==> ValidDisk(r.value) && DiskDecodedFrom(r.value, e)
    ensures r.Failure? ==>
      Identities.Decode(e.identity).Failure? || !AllDecodable(e.partitions) || !AllDecodable(e.logical) ||
      forall d :: DiskDecodedFrom(d, e) ==> !ValidDisk(d)
  {
    var identity := Identities.Decode(e.identity);
    if identity.Failure? {
      return Failure(identity.error);
    }
    var partitions :- DecodePartitions(e.partitions);
    var logical :- DecodePartitions(e.logical);
    r := NewDisk(e.length, partitions, identity.value, logical);
    var built := Disk(e.length, identity.value, partitions, logical);
    forall d | DiskDecodedFrom(d, e) ensures ValidDisk(d) == ValidDisk(built) {
      DiskDecodedFromUnique(d, built, e);
      ValidDiskSameShape(d, built);
    }
  }

  predicate AllWellFormed(ps: seq<Partition>) {
    forall i :: 0 <= i < |ps| ==> WellFormed(ps[i])
  }

  /** A well-formed partition is what Partition.Decode builds from its own encoding. */
  lemma {:induction false} PartitionDecodedFromEncode(p: Partition)
    requires WellFormed(p)
    ensures PartitionDecodable(EncodePartition(p)) && DecodedFrom(p, EncodePartition(p))
  {
    PartitionRoundTrip(p, p);
    ParseStyleName(p.style);
    if p.identity.Some? {
      DecodeEncode(p.identity.value);
    }
    if p.volume.Some? {
      DecodeRecordEncode(p.volume.value.Record());
    }
  }

  lemma {:induction false} PartitionsDecodedFromEncode(ps: seq<Partition>)
    requires AllWellFormed(ps)
    ensures AllDecodable(EncodePartitions(ps)) && AllDecodedFrom(ps, EncodePartitions(ps))
  {
    forall i | 0 <= i < |ps|
      ensures PartitionDecodable(EncodePartitions(ps)[i]) && DecodedFrom(ps[i], EncodePartitions(ps)[i])
    {
      PartitionDecodedFromEncode(ps[i]);
    }
  }

  /** Every disk of well-formed partitions is its own decoding of its encoding. */
  lemma {:induction false} DiskDecodedFromEncode(d: Disk)
    requires AllWellFormed(d.partitions) && AllWellFormed(d.logical)
    ensures DiskDecodedFrom(d, EncodeDisk(d))
    ensures AllDecodable(EncodeDisk(d).partitions) && AllDecodable(EncodeDisk(d).logical)
    ensures Identities.Decode(EncodeDisk(d).identity).Success?
  {
    if d.identity.Some? {
      DecodeEncode(d.identity.value);
    }
    PartitionsDecodedFromEncode(d.partitions);
    PartitionsDecodedFromEncode(d.logical);
  }

  /** Disk.decode(d.encode()) rebuilds a disk equal to d through the validating constructor. */
  method DecodeEncodedDisk(d: Disk) returns (r: Disk)
    requires ValidDisk(d) && AllWellFormed(d.partitions) && AllWellFormed(d.logical)
    ensures DiskEq(r, d) && ValidDisk(r)
  {
    DiskDecodedFromEncode(d);
    var decoded := DecodeDisk(EncodeDisk(d));
    r := decoded.value;
    DiskDecodedFromUnique(r, d, EncodeDisk(d));
  }
}
