/** Volumes and their roles (p2v/volume.py). */
module Volumes {
  import opened Wrappers
  import opened Identities

  datatype VolumeRole = VolumeRole(system: bool, boot: bool)

  /** The dictionary VolumeRole.encode produces. */
  datatype EncodedRole = EncodedRole(system: bool, boot: bool)

  function EncodeRole(r: VolumeRole): EncodedRole {
    EncodedRole(r.system, r.boot)
  }

  function DecodeRole(e: EncodedRole): VolumeRole {
    VolumeRole(e.system, e.boot)
  }

  /** VolumeRole.__eq__: never equal to None, otherwise both flags agree. */
  predicate RoleEquals(r: VolumeRole, other: Option<VolumeRole>)
    ensures RoleEquals(r, other) <==> other == Some(r)
  {
    other.Some? && r.system == other.value.system && r.boot == other.value.boot
  }

  /** The role codec is a bijection. */
  lemma {:induction false} RoleRoundTrip(r: VolumeRole, e: EncodedRole)
    ensures DecodeRole(EncodeRole(r)) == r
    ensures EncodeRole(DecodeRole(e)) == e
  {
  }

  /** The opaque block device; only its length in bytes is modelled. */
  datatype Device = Device(length: nat)

  /** The part of a volume that equality, encode and Decode look at. */
  datatype VolumeRecord = VolumeRecord(guid: string, drive: Option<string>, role: VolumeRole, identity: Option<Identity>)

  class Volume {
    const guid: string
    const drive: Option<string>
    const role: VolumeRole
    const identity: Option<Identity>
    var device: Option<Device>

    constructor (guid: string, drive: Option<string>, role: VolumeRole, identity: Option<Identity>)
      ensures this.guid == guid && this.drive == drive && this.role == role && this.identity == identity
      ensures device.None?
    {
      this.guid := guid;
      this.drive := drive;
      this.role := role;
      this.identity := identity;
      device := None;
    }

    function Record(): VolumeRecord {
      VolumeRecord(guid, drive, role, identity)
    }

    function Name(): string {
      guid
    }

    predicate IsSystemDrive() {
      role.system
    }

    function GetDevice(): Option<Device>
      reads this
    {
      device
    }

    /** add_device: attach the device, whatever it was before. */
    method AddDevice(d: Device)
      modifies this
      ensures GetDevice() == Some(d)
    {
      device := Some(d);
    }
  }

  /** The accessors read the guid and the system flag of the role. */
  lemma {:induction false} VolumeAccessors(v: Volume)
    ensures v.Name() == v.guid && v.IsSystemDrive() == v.role.system
  {
  }

  /** Volume.__eq__: guid, drive, role and identity; the device is ignored. */
  predicate VolumeEq(a: Volume, b: Volume)
    ensures VolumeEq(a, b) <==> a.Record() == b.Record()
  {
    a.guid == b.guid && a.drive == b.drive && RoleEquals(a.role, Some(b.role)) &&
    (match a.identity
     case None => b.identity.None?
     case Some(id) => Equals(id, b.identity))
  }

  /** The dictionary Volume.encode produces; the identity is kept in its "flavor/hex" text. */
  datatype EncodedVolume = EncodedVolume(guid: string, drive: Option<string>, role: EncodedRole, identity: Option<string>)

  function EncodeRecord(r: VolumeRecord): EncodedVolume {
    EncodedVolume(r.guid, r.drive, EncodeRole(r.role),
                  if r.identity.Some? then Some(Encode(r.identity.value)) else None)
  }

  function EncodeVolume(v: Volume): EncodedVolume {
    EncodeRecord(v.Record())
  }

  /** The values Volume.Decode hands to the constructor; it fails only where Id.Decode does. */
  function DecodeRecord(e: EncodedVolume): (r: Result<VolumeRecord>)
    ensures r.Success? <==> Identities.Decode(e.identity).Success?
    ensures r.Success? ==> r.value.guid == e.guid && r.value.drive == e.drive && EncodeRole(r.value.role) == e.role
  {
    var identity :- Identities.Decode(e.identity);
    Success(VolumeRecord(e.guid, e.drive, DecodeRole(e.role), identity))
  }

  /** Decoding an encoded volume record gives it back. */
  lemma {:induction false} DecodeRecordEncode(r: VolumeRecord)
    ensures DecodeRecord(EncodeRecord(r)) == Success(r)
  {
    if r.identity.Some? {
      DecodeEncode(r.identity.value);
    }
  }

  /** Volume.Decode: None stays None; otherwise a fresh volume with no device. */
  method DecodeVolume(e: Option<EncodedVolume>) returns (r: Result<Option<Volume>>)
    ensures e.None? ==> r == Success(None)
    ensures e.Some? ==> (r.Success? <==> DecodeRecord(e.value).Success?)
    ensures e.Some? && r.Success? ==>
      r.value.Some? && r.value.value.Record() == DecodeRecord(e.value).value &&
      fresh(r.value.value) && r.value.value.device.None?
  {
    if e.None? {
      return Success(None);
    }
    var record := DecodeRecord(e.value);
    if record.Failure? {
      return Failure(record.error);
    }
    var rec := record.value;
    var v := new Volume(rec.guid, rec.drive, rec.role, rec.identity);
    return Success(Some(v));
  }

  /** Decoding what a volume encodes to yields an equal volume. */
  method DecodeEncodedVolume(v: Volume) returns (r: Volume)
    ensures VolumeEq(r, v) && r.device.None? && fresh(r)
  {
    DecodeRecordEncode(v.Record());
    var d := DecodeVolume(Some(EncodeVolume(v)));
    r := d.value.value;
  }

  /** GetVolumeByGuid: the first volume in list order carrying the guid, or None. */
  method GetVolumeByGuid(guid: string, volumes: seq<Volume>) returns (r: Option<Volume>)
    ensures r.None? <==> forall i :: 0 <= i < |volumes| ==> volumes[i].guid != guid
    ensures r.Some? ==> exists i :: 0 <= i < |volumes| && volumes[i] == r.value && r.value.guid == guid &&
                                    forall j :: 0 <= j < i ==> volumes[j].guid != guid
  {
    for k := 0 to |volumes|
      invariant forall j :: 0 <= j < k ==> volumes[j].guid != guid
    {
      if volumes[k].guid == guid {
        return Some(volumes[k]);
      }
    }
    return None;
  }
}
