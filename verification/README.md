# P2V partition layout, modelled in Dafny

P2V turns the volumes of a physical Windows machine into virtual disk images. This project models the part that plans the disks. Each volume carries an identity that remembers where it lived:

- an MBR partition id: the disk signature plus the byte offset of the partition;
- or a GPT partition GUID.

From those identities, the modelled core rebuilds the partition layout of each original disk:

- the primary, extended and logical partitions of an MBR disk;
- the 1 MiB-aligned partitions of a GPT disk;
- the validated `Disk` records that hold them.

The modules follow the source files:

| module | file | source |
|---|---|---|
| `Units` | units.dfy | `units/bytes.py`: byte units, and `AlignedOffset` rounding down to an alignment |
| `Sectors` | sectors.dfy | `p2v/sectors.py`: bytes to 512-byte sectors and back |
| `Identities` | identity.dfy | `p2v/identity.py`: MBR disk, MBR partition and GPT identities, their `"flavor/hex"` codec, congruence, the offset/signature accessors and setters, GUID text formatting and parsing |
| `Volumes` | volume.dfy | `p2v/volume.py`: volume roles, volumes with an attachable device, their codec and equality, lookup by guid |
| `Partitions` | partition.dfy | `p2v/partition.py`: partition styles, the MBR/GPT table constants, the validating constructor, `precedes`/`succeeds`/`congruent`, `CheckSanity`, `CheckBounds`, codec and equality |
| `Disks` | disk.dfy | `p2v/disk.py`: `find_only`, the validating `Disk` constructor, the accessors, flavor checks, codec and equality |
| `DiskBuilders` | disk_builders.dfy | `p2v/disk.py`: `MakeMbrDisk`, `MakeGptDisk` |
| `DiskArrays` | disk_array.dfy | `p2v/disk.py`: `MakeDiskArray` |

There are also three helper modules:

- `Wrappers`: `Option`, `Result`, and one `Error` constructor per way the code raises.
- `Hex`: `binascii.hexlify`/`unhexlify`, `int(s, 16)`, and little-endian `struct` packing.
- `Text`: `str.split` and reversal of a slice.

Where the code raises, the model returns `Failure(e)` from a `Result`. The `Error` constructors are named after the condition.

Code that changes state step by step is imperative Dafny, proved against a specification function:

- `Volume` is a class, because `add_device` updates it in place and partitions share it.
- The MBR partition id is a class whose setters overwrite its bytes.
- `CheckSanity`, `GetVolumeByGuid`, `partition_number`, the decoders and the builders are methods with loops.
- Each builder's `ensures` equates its result with a function (`MbrDiskOf`, `GptDiskOf`, `DiskArrayOf`). The lemmas about that function state what the layout is.

Where the prose description of the system and the code disagree, the model follows the code:

- **MBR disk with more than three volumes.** The code keeps three primaries and appends the extended partition as a fourth table entry. It does not replace the third primary.
- **Partitions built by `MakeMbrDisk`.** They carry no identity.
- **Flavor checks.** When no identity is found, `is_mbr` and `is_gpt` return false rather than "unspecified". `is_unspecified` is true whenever the disk has no identity of its own (see Findings).
- **`Disk` equality.** It compares partition lists pairwise with `zip`, so it is not full structural equality (see Findings).
- **Unknown partition style.** The constructor fails on an unknown style tag (a `KeyError` in the code), after the two alignment checks.
- **Mutation.** Volumes and MBR partition ids are mutated in place, not immutable values.

## Model

| member | source | states |
|---|---|---|
| Units.Kibibytes | units/bytes.py:1-2 | the result is n * 2^10 |
| Units.Mebibytes | units/bytes.py:5-6 | the result is n * 2^20 |
| Units.Gibibytes | units/bytes.py:9-10 | the result is n * 2^30 |
| Units.Tebibytes | units/bytes.py:13-14 | the result is n * 2^40 |
| Units.AlignedOffset.Offset | units/bytes.py:23-24 | the rounded value is a multiple of the alignment, at most the value, and less than one alignment below it |
| Units.AlignedOffset.Previous | units/bytes.py:26-27 | a multiple of the alignment strictly below Offset(), and between value - 2a and value - a |
| Units.AlignedOffset.Next | units/bytes.py:29-30 | a multiple of the alignment strictly above the value, at most one alignment above it |
| Units.IsAlignedFixed | units/bytes.py:32-33 | is_aligned holds exactly when offset() leaves the value unchanged |
| Units.OffsetIsGreatest | units/bytes.py:23-24 | offset() is the greatest multiple of the alignment that does not exceed the value |
| Units.OffsetIdempotent | units/bytes.py:23-24 | rounding down twice is rounding down once |
| Units.AlignedOffsetOfAligned | units/bytes.py:23-33 | for an aligned value, offset() is the value, previous() is one alignment below and next() one above |
| Sectors.Sectors | p2v/sectors.py:3-6 | succeeds exactly on multiples of 512, and then gives the sector count; otherwise fails with NotSectorAligned |
| Sectors.CheckSectorAligned | p2v/sectors.py:11-12 | true exactly when Sectors does not fail |
| Sectors.SectorsOfSectorBytes | p2v/sectors.py:3-9 | Sectors(SectorBytes(s)) == s, so `SectorBytes` (sectors to bytes, 512 per sector) is the inverse of Sectors |
| Sectors.SectorBytesOfSectors | p2v/sectors.py:3-9 | SectorBytes(Sectors(b)) == b for every sector-aligned b |
| Text.Split | p2v/identity.py:53 | str.split gives at least one part, and no part contains the separator |
| Text.SplitJoin | p2v/identity.py:53 | a separator after a separator-free run ends the first part |
| Hex.Hexlify | p2v/identity.py:45 | two lower-case hex digits per byte |
| Hex.HexlifyAt | p2v/identity.py:45 | byte i is written at positions 2i and 2i+1, high nibble first |
| Hex.Unhexlify | p2v/identity.py:54 | a decoded text has two digits per byte |
| Hex.UnhexlifyHexlify | p2v/identity.py:44-54 | unhexlify(hexlify(b)) == b |
| Hex.HexlifyUnhexlify | p2v/identity.py:44-54 | hexlify(unhexlify(s)) == s for lower-case hex text |
| Hex.HexNumber | p2v/identity.py:214-216 | int(s, 16) is defined exactly on non-empty runs of hex digits, and is below 16^len(s) |
| Hex.LeValueOfLeBytes | p2v/identity.py:132-136 | unpacking a packed little-endian value that fits gives it back |
| Hex.LeBytesOfLeValue | p2v/identity.py:132-136 | packing an unpacked little-endian field gives it back |
| Hex.HexNumberOfHexlify | p2v/identity.py:198-216 | int(hexlify(b), 16) is the big-endian value of b |
| Identities.NewId | p2v/identity.py:102-107 | the constructors succeed exactly when the byte length is 12, 4 or 16 for the flavor, keeping flavor and bytes; otherwise they fail with InvalidIdentityLength |
| Identities.Equals | p2v/identity.py:21-26 | an id equals another exactly when both are present with the same flavor and bytes; it never equals None |
| Identities.MbrXorGpt | p2v/identity.py:37-42 | every id is exactly one of is_mbr and is_gpt |
| Identities.FlavorOfName | p2v/identity.py:56-63 | only the three flavor tags are recognised |
| Identities.Decode | p2v/identity.py:47-63 | None decodes to None; a decoded id carries the flavor named before the slash |
| Identities.DecodeEncode | p2v/identity.py:44-63 | Decode(Encode(id)) == id for every valid id, so `Encode` (the flavor tag and hex bytes of Id.encode) loses nothing |
| Identities.DecodeRejectsUnknownFlavor | p2v/identity.py:56-63 | a text whose flavor tag is unknown never decodes |
| Identities.CongruentCases | p2v/identity.py:76-175 | a GPT id is congruent with exactly the GPT ids; an MBR id with exactly the MBR ids, disk or partition, that carry the same signature; offset bytes are ignored |
| Identities.CongruentEquivalence | p2v/identity.py:76-175 | congruence is reflexive, symmetric and transitive |
| Identities.SignatureOf | p2v/identity.py:138-144 | signature() is four bytes |
| Identities.OffsetOf | p2v/identity.py:127-133 | offset() is an unsigned 64-bit value |
| Identities.MbrPartitionIdFields | p2v/identity.py:90-144 | an MBR partition id is its signature followed by its offset packed little-endian |
| Identities.MbrPartitionId.constructor | p2v/identity.py:102-107 | a new MBR partition id holds the 12 given bytes |
| Identities.MbrPartitionId.SetOffset | p2v/identity.py:135-136 | afterwards offset() is the new offset and the signature is unchanged |
| Identities.MbrPartitionId.SetSignature | p2v/identity.py:146-147 | the bytes become the new signature followed by the old offset bytes; with a 4-byte signature, signature() is the new one and offset() is unchanged |
| Identities.BytesToCanonicalFormatGuid | p2v/identity.py:187-203 | 16 bytes format as 36 characters: 8-4-4-4-12 lower-case hex digits separated by dashes |
| Identities.GuidTextLayout | p2v/identity.py:187-203 | bytes 3..0, 5..4 and 7..6 are printed reversed, and bytes 8..15 in order; each byte high nibble first |
| Identities.CanonicalFormatGuidToGptId | p2v/identity.py:205-225 | text that does not split into five dash-separated parts fails with MalformedGuid; a parsed id is a GPT id |
| Identities.GuidBytesRoundTrip | p2v/identity.py:187-225 | every 16-byte GUID survives formatting and parsing |
| Identities.GuidTextRoundTrip | p2v/identity.py:187-225 | every canonical lower-case GUID text survives parsing and formatting |
| Volumes.RoleEquals | p2v/volume.py:29-33 | roles are equal exactly when both flags agree, and never equal None |
| Volumes.RoleRoundTrip | p2v/volume.py:15-24 | VolumeRole.Decode and encode are inverse |
| Volumes.Volume.constructor | p2v/volume.py:38-48 | a new volume holds the given fields and no device |
| Volumes.Volume.AddDevice | p2v/volume.py:72-81 | afterwards get_device() returns the device; only the device changes |
| Volumes.VolumeAccessors | p2v/volume.py:63-70 | name() is the guid, and is_system_drive() is the role's system flag |
| Volumes.VolumeEq | p2v/volume.py:50-54 | volumes are equal exactly when guid, drive, role and identity agree; the device is ignored |
| Volumes.DecodeRecord | p2v/volume.py:93-101 | decoding fails exactly when the identity does not decode, and keeps guid, drive and role |
| Volumes.DecodeRecordEncode | p2v/volume.py:83-101 | decoding an encoded volume gives back its fields |
| Volumes.DecodeVolume | p2v/volume.py:93-101 | None decodes to None; otherwise the result is a fresh volume with the decoded fields and no device |
| Volumes.DecodeEncodedVolume | p2v/volume.py:83-101 | Volume.Decode(v.encode()) equals v and has no device |
| Volumes.GetVolumeByGuid | p2v/volume.py:110-115 | the first volume in list order with the guid, or None exactly when no volume has it |
| Partitions.ParseStyle | p2v/partition.py:103-109 | only the four style tags are known |
| Partitions.MbrLayout | p2v/partition.py:27-54 | the disk signature lies before the table, the four 16-byte entries end 2 bytes before the end of the sector, the type field lies inside an entry, and both alignments are 1 MiB |
| Partitions.GetEntryOffset | p2v/partition.py:73-79 | entry n lies at a multiple of 128, and at or after LBA 2 for n >= 1 |
| Partitions.GptEntryLayout | p2v/partition.py:73-100 | the 16-byte GUID field lies inside its entry; entries of distinct partitions never overlap, and are in increasing order |
| Partitions.Overhead | p2v/partition.py:103-109 | 512 bytes for a logical partition, 0 otherwise |
| Partitions.NewPartition | p2v/partition.py:114-138 | succeeds exactly when offset and length are aligned, the style is known, the offset covers the style's overhead and the length is positive; a misaligned offset fails first; a built partition holds the given fields |
| Partitions.PrecedesSucceeds | p2v/partition.py:152-157 | `Precedes` (p ends before q's start less q's per-partition overhead) implies `Succeeds` in reverse (q starts at or after p's end), and is equivalent to it unless the successor is logical |
| Partitions.BootPartitionHasSystemVolume | p2v/partition.py:164-167 | a partition is a boot partition exactly when it has a volume whose role is system |
| Partitions.CheckSanity | p2v/partition.py:218-242 | returns exactly Sane(ps): adjacent entries congruent and in order, at most one extended entry, every entry logical exactly when the first is |
| Partitions.SanePrefix | p2v/partition.py:218-242 | every prefix of a sane list is sane |
| Partitions.SaneExtend | p2v/partition.py:225-241 | one more entry keeps a list sane exactly when the loop's checks for that entry pass, among them `PartitionCongruent` with its predecessor (partition.py:140-150: a predecessor without identity is congruent with anything, otherwise the identities must be congruent) |
| Partitions.CountExtendedZero | p2v/partition.py:232-236 | no extended entry is counted exactly when there is none |
| Partitions.SaneOrdered | p2v/partition.py:225-231 | in a sane list every partition ends at or before any later one starts |
| Partitions.SaneExtendedUnique | p2v/partition.py:232-236 | a sane list has at most one extended partition |
| Partitions.CheckBounds | p2v/partition.py:244-252 | fails exactly on an insane or empty list |
| Partitions.CheckBoundsWithin | p2v/partition.py:244-252 | true exactly when the list is sane, non-empty, and every partition lies within [start, end] |
| Partitions.PartitionEq | p2v/partition.py:202-208 | partitions are equal exactly when all their fields agree, comparing volumes by Volume equality |
| Partitions.PartitionEqAsWritten | p2v/partition.py:202-208 | raises exactly when the first four fields agree and only one of the two has a volume; otherwise agrees with PartitionEq |
| Partitions.PartitionEqAsWrittenRaises | p2v/partition.py:202-208 | a partition without a volume compared with the same partition with one raises, instead of answering false |
| Partitions.DecodePartition | p2v/partition.py:187-200 | succeeds exactly when identity and volume decode and the validating constructor accepts the fields; the result is well-formed, its fields are decoded from the dictionary, and any volume is fresh with no device |
| Partitions.PartitionRoundTrip | p2v/partition.py:174-200 | every partition the constructor accepts decodes from its encoding, and what decodes from it equals it |
| Disks.Filter | p2v/disk.py:13-14 | keeps exactly the elements satisfying the filter |
| Disks.FilterAppend | p2v/disk.py:13-14 | filtering keeps the order of the input: the filter of two runs is the first's filter followed by the second's |
| Disks.FilterSingle | p2v/disk.py:13-14 | a single element survives exactly when it satisfies the filter; with FilterAppend this fixes the result on every list |
| Disks.FindOnly | p2v/disk.py:13-18 | the assertion fails exactly when two elements match; otherwise the result is the matching element, or None exactly when none matches |
| Disks.LogicalCheckMeaning | p2v/disk.py:51-62 | for sane primaries the logical check passes exactly when the logical partitions are sane and lie in the extended partition, after its 1 MiB boot header |
| Disks.NewDisk | p2v/disk.py:42-79 | succeeds exactly when the constructor's invariants hold (sane partitions, logical partitions within the extended one, identity congruent with the first partition, last partition within the length), and then holds the given fields; an insane list fails with SanityCheckFailed |
| Disks.ValidDiskBounds | p2v/disk.py:42-79 | in a valid disk every partition, logical ones included, ends within the disk length, and the logical partitions lie inside one extended partition |
| Disks.GetPartitions | p2v/disk.py:81-82 | the table entries followed by the logical partitions |
| Disks.GetBootPartition | p2v/disk.py:84-85 | fails exactly when two table entries are boot partitions; a result is a table entry holding the system volume |
| Disks.IsBootDisk | p2v/disk.py:96-100 | true exactly when some table entry, not a logical partition, is a boot partition |
| Disks.PartitionNumber | p2v/disk.py:87-94 | one plus the index of the first partition whose volume's drive is the given one, or None exactly when there is none |
| Disks.VolumesOfMembers | p2v/disk.py:138-140 | every listed volume comes from a partition, and every partition's volume is listed |
| Disks.VolumesOfSingle | p2v/disk.py:138-140 | one partition contributes its volume once, or nothing when it has none |
| Disks.VolumesOfAppend | p2v/disk.py:138-140 | the volumes of two runs of partitions are those of the first followed by those of the second; with VolumesOfSingle this fixes the order and multiplicity of the list: one entry per partition with a volume, in partition order |
| Disks.VolumesOfEach | p2v/disk.py:138-140 | when every partition carries the corresponding volume, the list is exactly those volumes in order |
| Disks.DiskVolumesMembers | p2v/disk.py:138-140 | the volumes of a disk are those of its table entries followed by those of its logical partitions, in that order, and exactly those its partitions carry |
| Disks.IsFlavored | p2v/disk.py:102-124 | an unknown flavor fails; otherwise the disk's own identity decides whether it is of that flavor, and without one the first partition's identity decides; the answer is false when that partition has no identity, and the call fails when there is no partition |
| Disks.MbrGptExclusive | p2v/disk.py:102-130 | is_mbr and is_gpt fail together, are never both true, and are both false exactly when no identity is found |
| Disks.IsUnspecifiedAsWritten | p2v/disk.py:132-136 | true exactly when the disk has no identity, whatever the first partition carries |
| Disks.IsUnspecifiedAsWrittenContradicts | p2v/disk.py:132-136 | a disk whose first partition has a GPT identity is reported both GPT and unspecified |
| Disks.IsUnspecified | p2v/disk.py:132-136 | true exactly when is_mbr and is_gpt are both false |
| Disks.DiskEqEquivalence | p2v/disk.py:167-178 | the intended disk equality `DiskEq` (identity, length and both partition lists position by position, in full) is an equivalence, and equal disks have partition lists of equal lengths |
| Disks.DiskEqAsWritten | p2v/disk.py:167-178 | disks with different identities or lengths are unequal; when no comparison raises, the disks are equal exactly when identity and length agree and each pair of partition lists agrees position by position on their common prefix, whatever the longer list holds beyond it |
| Disks.ZipEqPrefix | p2v/disk.py:172-177 | the zip loop answers the same on both lists as on their common prefixes |
| Disks.ZipEqTruncated | p2v/disk.py:172-177 | whenever the zip loop completes, it answers the position-wise comparison of the common prefixes |
| Disks.ZipEqAgrees | p2v/disk.py:172-177 | on lists of equal length, the zip loop answers the full position-wise comparison |
| Disks.DiskEqAsWrittenAgrees | p2v/disk.py:167-178 | when the list lengths agree and no comparison raises, the as-written equality is the structural one |
| Disks.DiskEqAsWrittenIgnoresMissing | p2v/disk.py:167-178 | a disk with partitions compares equal, as written, to the same disk with none |
| Disks.EncodePartitions | p2v/disk.py:146-149 | one encoded partition per partition, in order |
| Disks.DecodePartitions | p2v/disk.py:157-160 | succeeds exactly when every partition decodes, and yields them in order |
| Disks.DiskDecodedFromUnique | p2v/disk.py:152-165 | two disks decoded from the same dictionary are equal |
| Disks.ValidDiskSameShape | p2v/disk.py:42-79 | the constructor's invariants hold of equal disks alike |
| Disks.DecodeDisk | p2v/disk.py:152-165 | a decoded disk is valid and decoded from the dictionary; a failure means a part did not decode, or no disk decoded from it is valid |
| Disks.DiskDecodedFromEncode | p2v/disk.py:142-165 | every disk of well-formed partitions is its own decoding of its encoding |
| Disks.DecodeEncodedDisk | p2v/disk.py:142-165 | Disk.decode(d.encode()) passes the constructor and is equal to d |
| DiskBuilders.MbrPartitionsMeaning | p2v/disk.py:193-201 | a partition loop succeeds exactly when the constructor accepts every volume's partition, and then builds one per volume, in order |
| DiskBuilders.BuildMbrPartitions | p2v/disk.py:193-201 | the loop returns MbrPartitions |
| DiskBuilders.MakeMbrDisk | p2v/disk.py:188-229 | returns MbrDiskOf |
| DiskBuilders.AddExtendedPartition | p2v/disk.py:208-229 | the part for more than three volumes returns ExtendedMbrDiskOf |
| DiskBuilders.MbrDiskValid | p2v/disk.py:188-229 | a built MBR disk is valid and its identity is the MBR disk id of the first volume's signature |
| DiskBuilders.MbrDiskPrimaries | p2v/disk.py:189-206 | with up to three volumes: one primary per volume, in order, with offset from the identity, length from the device and no identity; no logical partitions; the length is the end of the last partition |
| DiskBuilders.MbrDiskExtended | p2v/disk.py:208-214 | with more than three volumes: three primaries, then an extended partition from the end of the third to the end of the last volume |
| DiskBuilders.MbrDiskLogical | p2v/disk.py:216-225 | with more than three volumes the rest become the logical partitions, in order, and the disk ends where the last of them ends |
| DiskBuilders.MbrDiskVolumes | p2v/disk.py:188-229 | the volumes of a built MBR disk are its arguments, in order |
| DiskBuilders.RoundUpIsLeast | p2v/disk.py:237-238 | rounding up gives the least multiple of 1 MiB not below the argument |
| DiskBuilders.RoundUpFixes | p2v/disk.py:245-246 | rounding up leaves exactly the aligned values unchanged |
| DiskBuilders.GptPartitionsSucceed | p2v/disk.py:235-246 | from an aligned offset, the loop succeeds exactly when no device is empty |
| DiskBuilders.GptPartitionsLayout | p2v/disk.py:233-246 | the loop lays one partition per volume end to end from the offset; each is as long as its device rounded up, and carries the volume and its identity |
| DiskBuilders.BuildGptPartitions | p2v/disk.py:233-246 | the loop returns GptPartitionsFrom at the aligned start |
| DiskBuilders.MakeGptDisk | p2v/disk.py:232-250 | returns GptDiskOf |
| DiskBuilders.GptDiskValid | p2v/disk.py:232-250 | a built GPT disk is valid, with no identity and no logical partitions |
| DiskBuilders.GptDiskShape | p2v/disk.py:232-250 | one GPT partition per volume, in order, the first at 1 MiB and each next where the previous ends; the disk ends 33 sectors after the last partition |
| DiskBuilders.GptDiskSucceeds | p2v/disk.py:232-250 | MakeGptDisk succeeds exactly when no device is empty and each volume's identity is congruent with the next |
| DiskBuilders.GptIdentitiesChain | p2v/disk.py:239-242 | volumes that all carry GPT identities always chain |
| DiskBuilders.GptDiskVolumes | p2v/disk.py:232-250 | the volumes of a built GPT disk are its arguments, in order |
| DiskArrays.WithFlavorCounts | p2v/disk.py:256-259 | the flavor filter keeps every occurrence of a volume of the flavor, and nothing else |
| DiskArrays.WithFlavorMembers | p2v/disk.py:256-259 | the volumes a filter selects come from the arguments and carry the flavor |
| DiskArrays.AddToGroupsMeaning | p2v/disk.py:262-267 | one grouping step appends the volume to its signature's list, or adds a new entry at the end; nothing else changes |
| DiskArrays.AddToGroupsFlatten | p2v/disk.py:262-267 | one grouping step adds exactly that volume to the dictionary's values |
| DiskArrays.GroupsOfMeaning | p2v/disk.py:261-267 | after the loop the keys are distinct, every signature seen has an entry, and each entry lists exactly the volumes of its signature, in argument order |
| DiskArrays.GroupsOfOrder | p2v/disk.py:261-269 | entries appear in the order their signatures first appear |
| DiskArrays.GroupsOfFlatten | p2v/disk.py:261-267 | the dictionary's values hold every volume seen, each once |
| DiskArrays.GroupBySignature | p2v/disk.py:261-267 | the grouping loop returns GroupsOf |
| DiskArrays.InsertByOffsetSorted | p2v/disk.py:270-273 | inserting into a list sorted by offset keeps it sorted |
| DiskArrays.SortByOffsetMeaning | p2v/disk.py:270-273 | the sorted list is ordered by offset and is a permutation of the group |
| DiskArrays.SortByOffsetStable | p2v/disk.py:270-273 | the sort is stable: volumes at the same offset keep their order |
| DiskArrays.MbrDisksMeaning | p2v/disk.py:269-275 | the loop over the groups succeeds exactly when every group's disk is built, and returns those disks in group order |
| DiskArrays.BuildMbrDisks | p2v/disk.py:269-275 | the loop over the groups returns MbrDisksOf |
| DiskArrays.MbrDisksVolumes | p2v/disk.py:269-275 | the disks of the groups hold exactly the grouped volumes |
| DiskArrays.GroupDiskVolumes | p2v/disk.py:269-275 | a group's disk is valid and holds the group's volumes sorted by offset |
| DiskArrays.GroupDiskIdentity | p2v/disk.py:263-274 | a group's disk carries the group's signature as its MBR disk id |
| DiskArrays.ArrayGptReady | p2v/disk.py:277-280 | the selected GPT volumes come from the arguments and have devices |
| DiskArrays.MakeDiskArray | p2v/disk.py:253-286 | returns DiskArrayOf |
| DiskArrays.DiskArrayMeaning | p2v/disk.py:253-286 | succeeds exactly when every group's MBR disk is built and, if there are GPT volumes, the GPT disk; returns the MBR disks in first-seen signature order, then the GPT disk |
| DiskArrays.DiskArrayLayout | p2v/disk.py:253-286 | each MBR disk is valid, carries its signature, and holds exactly that signature's MBR partition volumes sorted by offset; no two MBR disks share an identity; the GPT disk is valid, has no identity and holds the GPT volumes in argument order |
| DiskArrays.DiskArrayVolumes | p2v/disk.py:253-286 | every argument with an MBR partition or GPT identity is placed on exactly one disk, and nothing else is: volumes with an MBR disk identity are dropped |

## Left out

- The device of a volume is reduced to its length. Opening, reading and writing images, and everything in p2v/table.py, main.py, mnbd.py and ntfs.py (parted, sgdisk, nbd, kpartx, mount, the NTFS tool), are I/O and foreign calls and are not part of this model.
- `SignatureToMbrDiskId` and `Volume.guid_bytes` are not modelled. They rely on Python 2 only features (`buffer`, `str.translate(None, ...)`, `.decode("hex")`) and cannot run under the Python 3 the rest of the code targets.
- Logging, `__repr__`, `Volume.streamid` (set once to None and never read here) and the error messages of the raised exceptions are left out. `__ne__` is the negation of the modelled equalities.
- `Partition.get_device`, `Partition.volume_name` and `Id.buf` are one-line accessors through an optional field. `GptId.guid` is `BytesToCanonicalFormatGuid` of the bytes. None of them is modelled separately.
- The persisted form is a set of Dafny datatypes mirroring the JSON dictionaries, not JSON text. Identities keep their `"flavor/hex"` text.
- Units.AlignedOffset: the alignment is a positive integer. A zero alignment raises `ZeroDivisionError` in the code, and no caller passes a negative one.
- Identities.OffsetOf: `struct.unpack("Q")` uses the platform's byte order. The model reads the field little-endian, as on the x86 machines P2V runs on.
- Identities.MbrPartitionId.SetOffset: requires the offset to fit in 64 bits. `struct.pack` raises on larger offsets.
- Hex.HexNumber: `int(s, 16)` also accepts surrounding white space, a `+` sign, a `0x` prefix and underscores between digits. The model accepts only plain runs of hex digits, so `CanonicalFormatGuidToGptId` rejects such fields.
- Hex.Unhexlify: `bytearray.fromhex`, used for the last two GUID fields, also skips white space between byte pairs. The model does not.
- DiskBuilders.MakeMbrDisk: requires a non-empty list of volumes, each with an MBR partition identity and a device. The code raises `IndexError` or `AttributeError` otherwise, and `MakeDiskArray` only ever calls it that way.
- DiskBuilders.MakeGptDisk: requires a non-empty list of volumes with devices. The code raises `IndexError` or `AttributeError` otherwise.
- DiskArrays.MakeDiskArray: requires every volume to carry an identity, and every volume with an MBR partition or GPT identity to have a device. The code raises `AttributeError` otherwise.
- DiskArrays.SortByOffset: `list.sort` on the dictionary's lists is modelled as a pure stable insertion sort. The in-place update of those lists is not modelled, because nothing reads them afterwards.
- DiskArrays.GroupsOf: the dictionary is a sequence of entries in insertion order. It is keyed by the signature bytes, not by `str()` of the bytearray, which is an injective rendering of the same bytes.
- `DiskArrays.Signature` and `DiskArrays.Offset` give a default key to volumes without an MBR partition identity. Those keys are never used.

## Findings

| source | as written | input that shows it | evidently intended | confidence | as-written member | corrected member |
|---|---|---|---|---|---|---|
| p2v/disk.py:167-178 | the two `zip` loops stop at the shorter partition list | a disk with partitions compared with the same disk with none compares equal | disks are equal when identity, length and both partition lists agree in full; it is an equivalence (`Disks.DiskEqEquivalence`), and `Disks.DecodeEncodedDisk` and `Disks.ValidDiskSameShape` are proved with it | not executed; high | Disks.DiskEqAsWrittenIgnoresMissing | Disks.DiskEq |
| p2v/partition.py:202-208 | `self.volume == other.volume` calls `Volume.__eq__` (p2v/volume.py:50-54), which reads `other.guid` when one side is None | two partitions equal in offset, length, style and identity, one with a volume and one without | such partitions compare unequal; `Partitions.PartitionEq` is proved equivalent to equality of all fields | not executed; high | Partitions.PartitionEqAsWrittenRaises | Partitions.PartitionEq |
| p2v/disk.py:132-136 | `first_part.identity is not False` holds for None and for every identity | a disk without identity whose first partition has a GPT identity is reported both GPT and unspecified | unspecified exactly when neither the disk nor its first partition has an identity, that is when is_mbr and is_gpt are both false | not executed; medium | Disks.IsUnspecifiedAsWrittenContradicts | Disks.IsUnspecified |
