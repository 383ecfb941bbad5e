/**
 * Partitions, the fixed MBR and GPT table geometry, and the validators of
 * partition lists (p2v/partition.py).
 */
module Partitions {
  import opened Wrappers
  import opened Units
  import opened Sectors
  import opened Identities
  import opened Volumes

  datatype PartitionStyle = Primary | Extended | Logical | Gpt

  /** The style tags of the persisted form. */
  function StyleName(s: PartitionStyle): string {
    match s
    case Primary => "primary"
    case Extended => "extended"
    case Logical => "logical"
    case Gpt => "gpt"
  }

  /** The lookup in PerPartitionOverhead: only the four tags are known. */
  function ParseStyle(name: string): (r: Option<PartitionStyle>)
    ensures r.Some? ==> StyleName(r.value) == name
  {
    if name == "primary" then Some(Primary)
    else if name == "extended" then Some(Extended)
    else if name == "logical" then Some(Logical)
    else if name == "gpt" then Some(PartitionStyle.Gpt)
    else None
  }

  lemma {:induction false} ParseStyleName(s: PartitionStyle)
    ensures ParseStyle(StyleName(s)) == Some(s)
  {
  }

  // The MBR partition table (UEFI Specification, section 5.2.1).
  const MbrTableOffset: int := 0x1be
  const MbrIdOffset: int := 0x1b8
  const MbrIdLength: int := 4
  const MbrAlignment: int := 1024 * 1024
  const MbrEntryLength: int := 16
  const MbrEntryTypeOffset: int := 4
  const MbrEntryTypeLength: int := 1

  // The GPT partition entry array (UEFI Specification, section 5.3.3).
  const GptTableOffset: int := SectorBytes(2)
  const GptEntrySize: int := 0x80
  const GptAlignedPartitionStart: int := 1024 * 1024
  const GptPartitionAlignment: int := 1024 * 1024
  const GptSecondaryTableLength: int := SectorBytes(33)
  const UniqueGuidOffset: int := 0x10
  const UniqueGuidLength: int := 0x10

  /** The disk signature sits before the four primary entries, which fit in the first sector ahead of its 2-byte boot signature. */
  lemma {:induction false} MbrLayout()
    ensures MbrIdOffset + MbrIdLength <= MbrTableOffset
    ensures MbrTableOffset + 4 * MbrEntryLength == SectorSize - 2
    ensures MbrEntryTypeOffset + MbrEntryTypeLength <= MbrEntryLength
    ensures MbrAlignment == MiB && GptAlignedPartitionStart == MiB && GptPartitionAlignment == MiB
  {
  }

  /** GptDisk.get_entry_offset: entries are numbered from 1 and start at LBA 2. */
  function GetEntryOffset(partitionNumber: int): (r: int)
    ensures r % GptEntrySize == 0
    ensures partitionNumber >= 1 ==> r >= GptTableOffset
  {
    GptTableOffset + (partitionNumber - 1) * GptEntrySize
  }

  /** GptPartition.get_unique_guid_offset. */
  function GetUniqueGuidOffset(partitionNumber: int): int {
    GetEntryOffset(partitionNumber) + UniqueGuidOffset
  }

  /** The GUID field lies inside its entry and the entries of distinct partitions never overlap. */
  lemma {:induction false} GptEntryLayout(n: int, m: int)
    requires n >= 1 && m >= 1
    ensures GetEntryOffset(n) <= GetUniqueGuidOffset(n)
    ensures GetUniqueGuidOffset(n) + UniqueGuidLength <= GetEntryOffset(n) + GptEntrySize
    ensures n != m ==>
      GetEntryOffset(n) + GptEntrySize <= GetEntryOffset(m) || GetEntryOffset(m) + GptEntrySize <= GetEntryOffset(n)
    ensures n < m ==> GetEntryOffset(n) < GetEntryOffset(m)
  {
  }

  /** PerPartitionOverhead: a logical partition is preceded by its one-sector extended boot record. */
  function Overhead(s: PartitionStyle): (r: nat)
    ensures r == (if s == Logical then SectorSize else 0)
  {
    if s == Logical then SectorBytes(1) else 0
  }

  datatype Partition = Partition(
    style: PartitionStyle,
    offset: nat,
    length: nat,
    identity: Option<Identity>,
    volume: Option<Volume>,
    alignment: Alignment)

  function End(p: Partition): nat {
    p.offset + p.length
  }

  /** What the constructor guarantees of every partition it builds. */
  predicate WellFormed(p: Partition) {
    p.offset % p.alignment == 0 && p.length % p.alignment == 0 &&
    p.offset >= Overhead(p.style) && p.length > 0
  }

  /** The Partition constructor: the four checks in their order, then the fields. */
  function NewPartition(offset: int, length: int, style: string, identity: Option<Identity>,
                        volume: Option<Volume>, alignment: Alignment): (r: Result<Partition>)
    ensures r.Success? <==>
      offset % alignment == 0 && length % alignment == 0 && ParseStyle(style).Some? &&
      offset >= Overhead(ParseStyle(style).value) && length > 0
    ensures r.Success? ==>
      WellFormed(r.value) && r.value.offset == offset && r.value.length == length &&
      StyleName(r.value.style) == style && r.value.identity == identity &&
      r.value.volume == volume && r.value.alignment == alignment
    ensures offset % alignment != 0 ==> r == Failure(MisalignedOffset)
  {
    if !AlignedOffset(offset, alignment).IsAligned() then Failure(MisalignedOffset)
    else if !AlignedOffset(length, alignment).IsAligned() then Failure(MisalignedLength)
    else
      match ParseStyle(style)
      case None => Failure(UnknownStyle)
      case Some(s) =>
        if offset < Overhead(s) then Failure(InsufficientOffset)
        else if length <= 0 then Failure(NonPositiveLength)
        else Success(Partition(s, offset, length, identity, volume, alignment))
  }

  /** Partition.congruent: a partition without identity is congruent with anything. */
  predicate PartitionCongruent(p: Partition, other: Partition) {
    p.identity.None? || Congruent(p.identity.value, other.identity)
  }

  /** p ends no later than where q's overhead begins. */
  predicate Precedes(p: Partition, q: Partition) {
    End(p) <= q.offset - Overhead(q.style)
  }

  predicate Succeeds(p: Partition, q: Partition) {
    p.offset >= End(q)
  }

  /** precedes is the stronger relation: it leaves room for the successor's overhead. */
  lemma {:induction false} PrecedesSucceeds(p: Partition, q: Partition)
    ensures Precedes(p, q) ==> Succeeds(q, p)
    ensures q.style != Logical ==> (Precedes(p, q) <==> Succeeds(q, p))
  {
  }

  predicate IsBootPartition(p: Partition) {
    p.volume.Some? && p.volume.value.IsSystemDrive()
  }

  lemma {:induction false} BootPartitionHasSystemVolume(p: Partition)
    ensures IsBootPartition(p) <==> p.volume.Some? && p.volume.value.role.system
  {
  }

  predicate IsExtended(p: Partition) {
    p.style == Extended
  }

  predicate IsLogical(p: Partition) {
    p.style == Logical
  }

  /** How many entries of ps are extended partitions. */
  function CountExtended(ps: seq<Partition>): (n: nat)
    ensures n <= |ps|
  {
    if ps == [] then 0
    else CountExtended(ps[..|ps| - 1]) + (if IsExtended(ps[|ps| - 1]) then 1 else 0)
  }

  /** No extended partition is counted exactly when there is none. */
  lemma {:induction false} CountExtendedZero(ps: seq<Partition>)
    ensures CountExtended(ps) == 0 <==> forall i :: 0 <= i < |ps| ==> !IsExtended(ps[i])
  {
    if ps != [] {
      var init := ps[..|ps| - 1];
      CountExtendedZero(init);
      assert forall i :: 0 <= i < |init| ==> init[i] == ps[i];
    }
  }

  /** A prefix holds no more extended partitions than the whole list. */
  lemma {:induction false} CountExtendedPrefix(ps: seq<Partition>, k: nat)
    requires k <= |ps|
    ensures CountExtended(ps[..k]) <= CountExtended(ps)
  {
    if k < |ps| {
      var init := ps[..|ps| - 1];
      assert init[..k] == ps[..k];
      CountExtendedPrefix(init, k);
    } else {
      assert ps[..k] == ps;
    }
  }

  /**
   * What Partition.CheckSanity accepts: adjacent entries are congruent and in
   * order, there is at most one extended partition, and every entry is
   * logical exactly when the first one is.
   */
  predicate Sane(ps: seq<Partition>) {
    |ps| <= 1 ||
    ((forall i :: 0 <= i < |ps| - 1 ==> PartitionCongruent(ps[i], ps[i + 1]) && Precedes(ps[i], ps[i + 1])) &&
     CountExtended(ps) <= 1 &&
     (forall i :: 0 <= i < |ps| ==> IsLogical(ps[i]) == IsLogical(ps[0])))
  }

  /** Partition.CheckSanity: one pass over adjacent pairs; the logical flag is never updated. */
  method CheckSanity(ps: seq<Partition>) returns (r: bool)
    ensures r == Sane(ps)
  {
    if |ps| == 0 {
      return true;
    }
    var extended := IsExtended(ps[0]);
    var logical := IsLogical(ps[0]);
    assert ps[..1][..0] == [];
    for i := 0 to |ps| - 1
      invariant Sane(ps[..i + 1])
      invariant extended <==> CountExtended(ps[..i + 1]) >= 1
      invariant logical == IsLogical(ps[0])
    {
      SaneExtend(ps, i + 1);
      SanePrefix(ps, i + 2);
      CountExtendedStep(ps, i + 1);
      if !PartitionCongruent(ps[i], ps[i + 1]) {
        return false;
      }
      if !Precedes(ps[i], ps[i + 1]) {
        return false;
      }
      if IsExtended(ps[i + 1]) {
        if extended {
          return false;
        }
        extended := true;
      }
      var nextLogical := IsLogical(ps[i + 1]);
      if nextLogical != logical {
        return false;
      }
    }
    assert ps[..|ps|] == ps;
    return true;
  }

  /** Counting the extended partitions of a prefix one entry longer. */
  lemma {:induction false} CountExtendedStep(ps: seq<Partition>, k: nat)
    requires k < |ps|
    ensures CountExtended(ps[..k + 1]) == CountExtended(ps[..k]) + (if IsExtended(ps[k]) then 1 else 0)
  {
    assert ps[..k + 1][..k] == ps[..k];
  }

  /** A prefix one entry longer is sane exactly when the shorter one is and the new entry fits after its predecessor. */
  lemma {:induction false} SaneExtend(ps: seq<Partition>, k: nat)
    requires 1 <= k < |ps|
    ensures Sane(ps[..k + 1]) <==>
      Sane(ps[..k]) && PartitionCongruent(ps[k - 1], ps[k]) && Precedes(ps[k - 1], ps[k]) &&
      CountExtended(ps[..k + 1]) <= 1 && IsLogical(ps[k]) == IsLogical(ps[0])
  {
    CountExtendedStep(ps, k);
    var long, short := ps[..k + 1], ps[..k];
    assert forall i :: 0 <= i < k ==> short[i] == long[i] == ps[i];
    assert long[k] == ps[k];
  }

  /** Every prefix of a sane list is sane. */
  lemma {:induction false} SanePrefix(ps: seq<Partition>, k: nat)
    requires k <= |ps|
    ensures Sane(ps) ==> Sane(ps[..k])
  {
    if Sane(ps) && k > 1 {
      CountExtendedPrefix(ps, k);
      var short := ps[..k];
      assert forall i :: 0 <= i < k ==> short[i] == ps[i];
    }
  }

  /** In a sane list every partition ends before any later one starts. */
  lemma {:induction false} SaneOrdered(ps: seq<Partition>, i: int, j: int)
    requires Sane(ps) && 0 <= i < j < |ps|
    ensures End(ps[i]) <= ps[j].offset
  {
    if i < j - 1 {
      SaneOrdered(ps, i, j - 1);
    }
    assert Precedes(ps[j - 1], ps[j]);
  }

  /** A sane list has at most one extended partition. */
  lemma {:induction false} SaneExtendedUnique(ps: seq<Partition>, i: int, j: int)
    requires Sane(ps) && 0 <= i < j < |ps|
    ensures !(IsExtended(ps[i]) && IsExtended(ps[j]))
  {
    if IsExtended(ps[i]) && IsExtended(ps[j]) {
      SaneOrdered(ps, i, j);
      CountAtLeastTwo(ps, i, j);
    }
  }

  /** Two extended entries make the count at least two. */
  lemma {:induction false} CountAtLeastTwo(ps: seq<Partition>, i: int, j: int)
    requires 0 <= i < j < |ps| && IsExtended(ps[i]) && IsExtended(ps[j])
    ensures CountExtended(ps) >= 2
  {
    var init := ps[..|ps| - 1];
    if j < |ps| - 1 {
      CountAtLeastTwo(init, i, j);
    } else {
      CountAtLeastOne(init, i);
    }
  }

  lemma {:induction false} CountAtLeastOne(ps: seq<Partition>, i: int)
    requires 0 <= i < |ps| && IsExtended(ps[i])
    ensures CountExtended(ps) >= 1
  {
    if i < |ps| - 1 {
      CountAtLeastOne(ps[..|ps| - 1], i);
    }
  }

  /** Partition.CheckBounds: raises on an insane or empty list, else compares the outer ends. */
  function CheckBounds(start: int, end: int, ps: seq<Partition>): (r: Result<bool>)
    ensures r.Failure? <==> !Sane(ps) || ps == []
  {
    if !Sane(ps) then Failure(PartitionsNotSane)
    else if ps == [] then Failure(EmptyPartitionList)
    else Success(ps[0].offset >= start && End(ps[|ps| - 1]) <= end)
  }

  /** The bounds check holds exactly when every partition of a sane list lies within [start, end]. */
  lemma {:induction false} CheckBoundsWithin(start: int, end: int, ps: seq<Partition>)
    ensures CheckBounds(start, end, ps) == Success(true) <==>
      Sane(ps) && ps != [] && forall i :: 0 <= i < |ps| ==> start <= ps[i].offset && End(ps[i]) <= end
  {
    if Sane(ps) && ps != [] && ps[0].offset >= start && End(ps[|ps| - 1]) <= end {
      forall i | 0 <= i < |ps|
        ensures start <= ps[i].offset && End(ps[i]) <= end
      {
        if i > 0 {
          SaneOrdered(ps, 0, i);
        }
        if i < |ps| - 1 {
          SaneOrdered(ps, i, |ps| - 1);
        }
      }
    }
  }

  /** The part of a partition that equality, encode and Decode look at. */
  datatype PartitionRecord = PartitionRecord(
    style: PartitionStyle, offset: nat, length: nat, identity: Option<Identity>,
    volume: Option<VolumeRecord>, alignment: Alignment)

  function VolumeRecordOf(v: Option<Volume>): Option<VolumeRecord> {
    if v.Some? then Some(v.value.Record()) else None
  }

  function RecordOf(p: Partition): PartitionRecord {
    PartitionRecord(p.style, p.offset, p.length, p.identity, VolumeRecordOf(p.volume), p.alignment)
  }

  /** Partition.__eq__ as evidently intended: a missing volume equals only a missing volume. */
  predicate PartitionEq(p: Partition, q: Partition)
    ensures PartitionEq(p, q) <==> RecordOf(p) == RecordOf(q)
  {
    p.offset == q.offset && p.length == q.length && p.style == q.style && p.identity == q.identity &&
    (match p.volume
     case None => q.volume.None?
     case Some(v) => q.volume.Some? && VolumeEq(v, q.volume.value)) &&
    p.alignment == q.alignment
  }

  /**
   * Partition.__eq__ as written: once the first four fields agree it compares
   * the volumes with ==, and Volume.__eq__ reads other.guid, which fails when
   * exactly one of the two volumes is None.
   */
  function PartitionEqAsWritten(p: Partition, q: Partition): (r: Result<bool>)
    ensures r.Success? ==> r.value == PartitionEq(p, q)
    ensures r.Failure? <==>
      p.offset == q.offset && p.length == q.length && p.style == q.style && p.identity == q.identity &&
      p.volume.Some? != q.volume.Some?
  {
    if !(p.offset == q.offset && p.length == q.length && p.style == q.style && p.identity == q.identity) then
      Success(false)
    else
      match (p.volume, q.volume)
      case (None, None) => Success(p.alignment == q.alignment)
      case (Some(a), Some(b)) => Success(VolumeEq(a, b) && p.alignment == q.alignment)
      case _ => Failure(VolumeComparedWithNone)
  }

  /** A partition without volume compared with the same partition carrying one raises instead of answering false. */
  lemma {:induction false} PartitionEqAsWrittenRaises(p: Partition, v: Volume)
    ensures PartitionEqAsWritten(p.(volume := None), p.(volume := Some(v))) == Failure(VolumeComparedWithNone)
    ensures !PartitionEq(p.(volume := None), p.(volume := Some(v)))
  {
  }

  /** The dictionary Partition.encode produces. */
  datatype EncodedPartition = EncodedPartition(
    offset: int, length: int, style: string, identity: Option<string>,
    volume: Option<EncodedVolume>, alignment: Alignment)

  function EncodePartition(p: Partition): EncodedPartition {
    EncodedPartition(p.offset, p.length, StyleName(p.style),
                     if p.identity.Some? then Some(Encode(p.identity.value)) else None,
                     if p.volume.Some? then Some(EncodeVolume(p.volume.value)) else None,
                     p.alignment)
  }

  /** Partition.Decode succeeds: the identity and the volume decode and the constructor accepts the fields. */
  predicate PartitionDecodable(e: EncodedPartition) {
    Identities.Decode(e.identity).Success? &&
    (e.volume.Some? ==> DecodeRecord(e.volume.value).Success?) &&
    NewPartition(e.offset, e.length, e.style, None, None, e.alignment).Success?
  }

  /** p is what Partition.Decode builds from e. */
  predicate DecodedFrom(p: Partition, e: EncodedPartition) {
    p.offset == e.offset && p.length == e.length && StyleName(p.style) == e.style &&
    p.alignment == e.alignment && Identities.Decode(e.identity) == Success(p.identity) &&
    match e.volume
    case None => p.volume.None?
    case Some(ev) => p.volume.Some? && DecodeRecord(ev) == Success(p.volume.value.Record())
  }

  /** Partition.Decode: identity, then volume, then the validating constructor. */
  method DecodePartition(e: EncodedPartition) returns (r: Result<Partition>)
    ensures r.Success? <==> PartitionDecodable(e)
    ensures r.Success? ==> WellFormed(r.value) && DecodedFrom(r.value, e)
    ensures r.Success? && r.value.volume.Some? ==> fresh(r.value.volume.value) && r.value.volume.value.device.None?
  {
    var identity := Identities.Decode(e.identity);
    if identity.Failure? {
      return Failure(identity.error);
    }
    var volume := DecodeVolume(e.volume);
    if volume.Failure? {
      return Failure(volume.error);
    }
    r := NewPartition(e.offset, e.length, e.style, identity.value, volume.value, e.alignment);
  }

  /** Every partition the constructor accepts survives encode and Decode, up to equality. */
  lemma {:induction false} PartitionRoundTrip(p: Partition, q: Partition)
    requires WellFormed(p)
    ensures PartitionDecodable(EncodePartition(p))
    ensures DecodedFrom(q, EncodePartition(p)) ==> PartitionEq(q, p)
  {
    ParseStyleName(p.style);
    if p.identity.Some? {
      DecodeEncode(p.identity.value);
    }
    if p.volume.Some? {
      DecodeRecordEncode(p.volume.value.Record());
    }
  }
}
