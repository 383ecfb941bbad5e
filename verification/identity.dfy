/**
 * Disk and partition identities (p2v/identity.py): a 4-byte MBR disk
 * signature, a 12-byte MBR partition id (signature followed by the
 * partition's byte offset, little-endian) and a 16-byte GPT GUID kept in
 * on-disk byte order (UEFI Specification, Appendix A).
 */
module Identities {
  import opened Wrappers
  import opened Text
  import opened Hex

  datatype Flavor = MbrPartition | MbrDisk | Gpt

  /** The flavor tags of the persisted "flavor/hex" form. */
  function FlavorName(f: Flavor): string {
    match f
    case MbrPartition => "mbr.partition"
    case MbrDisk => "mbr.disk"
    case Gpt => "gpt"
  }

  function FlavorOfName(name: string): (f: Option<Flavor>)
    ensures f.Some? ==> FlavorName(f.value) == name
  {
    if name == "mbr.partition" then Some(MbrPartition)
    else if name == "mbr.disk" then Some(MbrDisk)
    else if name == "gpt" then Some(Gpt)
    else None
  }

  /** MbrPartitionId.Length, MbrDiskId.Length and GptId.Length. */
  function FlavorLength(f: Flavor): nat {
    match f
    case MbrPartition => 12
    case MbrDisk => 4
    case Gpt => 16
  }

  datatype Id = Id(flavor: Flavor, bytes: seq<Byte>)

  /** An identity as its constructor admits it: exactly the flavor's number of bytes. */
  type Identity = id: Id | |id.bytes| == FlavorLength(id.flavor) witness Id(MbrDisk, [0, 0, 0, 0])

  /** The constructors MbrPartitionId, MbrDiskId and GptId. */
  function NewId(flavor: Flavor, bytes: seq<Byte>): (r: Result<Identity>)
    ensures r.Success? <==> |bytes| == FlavorLength(flavor)
    ensures r.Success? ==> r.value.flavor == flavor && r.value.bytes == bytes
    ensures r.Failure? ==> r.error == InvalidIdentityLength
  {
    if |bytes| == FlavorLength(flavor) then Success(Id(flavor, bytes)) else Failure(InvalidIdentityLength)
  }

  /** Id.__eq__: never equal to None, otherwise flavor and bytes must agree. */
  predicate Equals(a: Identity, other: Option<Identity>)
    ensures Equals(a, other) <==> other == Some(a)
  {
    other.Some? && a.flavor == other.value.flavor && a.bytes == other.value.bytes
  }

  predicate IsMbr(id: Identity) {
    id.flavor == MbrPartition || id.flavor == MbrDisk
  }

  predicate IsGpt(id: Identity) {
    id.flavor == Gpt
  }

  /** Every identity is exactly one of MBR and GPT. */
  lemma {:induction false} MbrXorGpt(id: Identity)
    ensures IsMbr(id) != IsGpt(id)
  {
  }

  /** Id.encode: "flavor/hex". */
  function Encode(id: Identity): string {
    FlavorName(id.flavor) + "/" + Hexlify(id.bytes)
  }

  /** Id.Decode: None stays None; otherwise split, unhexlify, dispatch on the flavor. */
  function Decode(encoded: Option<string>): (r: Result<Option<Identity>>)
    ensures encoded.None? ==> r == Success(None)
    ensures encoded.Some? && r.Success? ==>
      r.value.Some? && FlavorName(r.value.value.flavor) == Split(encoded.value, '/')[0]
  {
    match encoded
    case None => Success(None)
    case Some(s) =>
      var parts := Split(s, '/');
      if |parts| != 2 then Failure(MalformedIdentity)
      else
        match Unhexlify(parts[1])
        case None => Failure(NonHexIdentity)
        case Some(bytes) =>
          match FlavorOfName(parts[0])
          case None => Failure(UnknownFlavor)
          case Some(flavor) =>
            var id :- NewId(flavor, bytes);
            Success(Some(id))
  }

  lemma {:induction false} FlavorNameHasNoSlash(f: Flavor)
    ensures '/' !in FlavorName(f)
  {
    var n := FlavorName(f);
    forall i | 0 <= i < |n| ensures n[i] != '/' {
    }
  }

  /** Decoding an encoded identity gives it back. */
  lemma {:induction false} DecodeEncode(id: Identity)
    ensures Decode(Some(Encode(id))) == Success(Some(id))
  {
    var name, hex := FlavorName(id.flavor), Hexlify(id.bytes);
    FlavorNameHasNoSlash(id.flavor);
    assert '/' !in hex;
    SplitJoin(name, '/', hex);
    SplitNoSeparator(hex, '/');
    UnhexlifyHexlify(id.bytes);
  }

  /** A text whose flavor tag is none of the three never decodes. */
  lemma {:induction false} DecodeRejectsUnknownFlavor(s: string)
    requires FlavorOfName(Split(s, '/')[0]).None?
    ensures Decode(Some(s)).Failure?
  {
  }

  /** Python's slice s[0:n], which stops early on a short sequence. */
  function Take<T>(s: seq<T>, n: nat): seq<T> {
    if |s| <= n then s else s[..n]
  }

  /**
   * The congruent methods of GptId, MbrPartitionId and MbrDiskId: whether
   * `other` plausibly belongs to the same disk. None is always congruent.
   */
  predicate Congruent(a: Identity, other: Option<Identity>) {
    match other
    case None => true
    case Some(o) =>
      match a.flavor
      case Gpt => |a.bytes| == |o.bytes|
      case MbrPartition => (|o.bytes| == 12 || |o.bytes| == 4) && Take(a.bytes, 4) == Take(o.bytes, 4)
      case MbrDisk => (|o.bytes| == 4 || |o.bytes| == 12) && a.bytes == Take(o.bytes, 4)
  }

  /** The first four bytes: the disk signature of an MBR identity. */
  function Signature4(id: Identity): (s: seq<Byte>)
    ensures |s| == 4 && s == id.bytes[..4]
  {
    id.bytes[..4]
  }

  /**
   * Congruence by kind: a GPT identity matches exactly the other GPT
   * identities; an MBR identity matches exactly the MBR identities (disk or
   * partition) that carry the same signature.
   */
  lemma {:induction false} CongruentCases(a: Identity, o: Identity)
    ensures IsGpt(a) ==> (Congruent(a, Some(o)) <==> IsGpt(o))
    ensures IsMbr(a) ==> (Congruent(a, Some(o)) <==> IsMbr(o) && Signature4(a) == Signature4(o))
  {
  }

  /** Congruence is an equivalence on identities. */
  lemma {:induction false} CongruentEquivalence(a: Identity, b: Identity, c: Identity)
    ensures Congruent(a, Some(a))
    ensures Congruent(a, Some(b)) ==> Congruent(b, Some(a))
    ensures Congruent(a, Some(b)) && Congruent(b, Some(c)) ==> Congruent(a, Some(c))
  {
    CongruentCases(a, b);
    CongruentCases(b, c);
    CongruentCases(a, c);
    CongruentCases(b, a);
  }

  /** MbrPartitionId.signature: the first four bytes. */
  function SignatureOf(id: Identity): (s: seq<Byte>)
    requires id.flavor == MbrPartition
    ensures |s| == 4
  {
    id.bytes[0..4]
  }

  /** MbrPartitionId.offset: bytes 4 to 11 as an unsigned 64-bit little-endian value. */
  function OffsetOf(id: Identity): (o: nat)
    requires id.flavor == MbrPartition
    ensures o < Pow256(8)
  {
    LeValue(id.bytes[4..12])
  }

  /** Signature and offset together determine an MBR partition identity. */
  lemma {:induction false} MbrPartitionIdFields(id: Identity)
    requires id.flavor == MbrPartition
    ensures id.bytes == SignatureOf(id) + LeBytes(OffsetOf(id), 8)
  {
    LeBytesOfLeValue(id.bytes[4..12]);
    assert id.bytes == id.bytes[0..4] + id.bytes[4..12];
  }

  /** An MBR partition identity as an object whose bytes the private setters overwrite. */
  class MbrPartitionId {
    var identity: seq<Byte>

    predicate Valid()
      reads this
    {
      |identity| == 12
    }

    constructor (id: Identity)
      requires id.flavor == MbrPartition
      ensures Valid() && identity == id.bytes
    {
      identity := id.bytes;
    }

    function Value(): (id: Identity)
      reads this
      requires Valid()
      ensures id.flavor == MbrPartition && id.bytes == identity
    {
      Id(MbrPartition, identity)
    }

    function Offset(): nat
      reads this
      requires Valid()
    {
      OffsetOf(Value())
    }

    function Signature(): seq<Byte>
      reads this
      requires Valid()
    {
      SignatureOf(Value())
    }

    /** _set_offset: keep the signature, pack the new offset into the last eight bytes. */
    method SetOffset(offset: nat)
      requires Valid() && offset < Pow256(8)
      modifies this
      ensures Valid()
      ensures Offset() == offset && Signature() == old(Signature())
    {
      identity := identity[..4] + LeBytes(offset, 8);
      assert identity[4..12] == LeBytes(offset, 8);
      LeValueOfLeBytes(offset, 8);
    }

    /** _set_signature: replace the bytes before the offset; nothing checks the new length. */
    method SetSignature(signature: seq<Byte>)
      requires Valid()
      modifies this
      ensures identity == signature + old(identity[4..12])
      ensures |signature| == 4 ==> Valid() && Signature() == signature && Offset() == old(Offset())
    {
      identity := signature + identity[4..12];
      if |signature| == 4 {
        assert identity[4..12] == old(identity[4..12]);
      }
    }
  }

  // GUID text (RFC 4122, section 3): 8-4-4-4-12 lower-case hex digits.

  predicate IsDashPosition(i: int) {
    i == 8 || i == 13 || i == 18 || i == 23
  }

  predicate IsCanonicalGuid(s: string) {
    |s| == 36 &&
    forall i :: 0 <= i < 36 ==> if IsDashPosition(i) then s[i] == '-' else IsLowerHexDigit(s[i])
  }

  /**
   * BytesToCanonicalFormatGuid: the first three fields are little-endian on
   * disk and are printed most significant byte first; the last two are
   * printed in on-disk order.
   */
  function BytesToCanonicalFormatGuid(b: seq<Byte>): (s: string)
    requires |b| == 16
    ensures IsCanonicalGuid(s)
  {
    Hexlify(Reverse(b[0..4])) + "-" + Hexlify(Reverse(b[4..6])) + "-" + Hexlify(Reverse(b[6..8])) + "-" +
    Hexlify(b[8..10]) + "-" + Hexlify(b[10..16])
  }

  /** Where the two digits of GUID byte j are printed. */
  function GuidDigitPosition(j: int): int
    requires 0 <= j < 16
  {
    if j < 4 then 2 * (3 - j)
    else if j < 6 then 9 + 2 * (5 - j)
    else if j < 8 then 14 + 2 * (7 - j)
    else if j < 10 then 19 + 2 * (j - 8)
    else 24 + 2 * (j - 10)
  }

  /** Byte j of the raw GUID appears, high nibble first, at GuidDigitPosition(j). */
  lemma {:induction false} GuidTextLayout(b: seq<Byte>, j: int)
    requires |b| == 16 && 0 <= j < 16
    ensures BytesToCanonicalFormatGuid(b)[GuidDigitPosition(j)] == HexDigit(b[j] / 16)
    ensures BytesToCanonicalFormatGuid(b)[GuidDigitPosition(j) + 1] == HexDigit(b[j] % 16)
  {
    var f0, f1, f2 := Reverse(b[0..4]), Reverse(b[4..6]), Reverse(b[6..8]);
    var f3, f4 := b[8..10], b[10..16];
    var s := BytesToCanonicalFormatGuid(b);
    var k := GuidDigitPosition(j);
    JoinFields(Hexlify(f0), Hexlify(f1), Hexlify(f2), Hexlify(f3), Hexlify(f4));
    if j < 4 {
      FieldDigits(s, 0, f0, 3 - j);
      assert f0[3 - j] == b[j];
    } else if j < 6 {
      FieldDigits(s, 9, f1, 5 - j);
      assert f1[5 - j] == b[j];
    } else if j < 8 {
      FieldDigits(s, 14, f2, 7 - j);
      assert f2[7 - j] == b[j];
    } else if j < 10 {
      FieldDigits(s, 19, f3, j - 8);
      assert f3[j - 8] == b[j];
    } else {
      FieldDigits(s, 24, f4, j - 10);
      assert f4[j - 10] == b[j];
    }
  }

  /** The two digits of byte i of a field printed at position lo of s. */
  lemma {:induction false} FieldDigits(s: string, lo: nat, f: seq<Byte>, i: nat)
    requires lo + 2 * |f| <= |s| && s[lo..lo + 2 * |f|] == Hexlify(f) && i < |f|
    ensures s[lo + 2 * i] == HexDigit(f[i] / 16) && s[lo + 2 * i + 1] == HexDigit(f[i] % 16)
  {
    HexlifyAt(f, i);
    assert s[lo + 2 * i] == s[lo..lo + 2 * |f|][2 * i];
    assert s[lo + 2 * i + 1] == s[lo..lo + 2 * |f|][2 * i + 1];
  }

  /** Where the five fields of an 8-4-4-4-12 text sit once joined by dashes. */
  lemma {:induction false} JoinFields(h0: string, h1: string, h2: string, h3: string, h4: string)
    requires |h0| == 8 && |h1| == 4 && |h2| == 4 && |h3| == 4 && |h4| == 12
    ensures var s := h0 + "-" + h1 + "-" + h2 + "-" + h3 + "-" + h4;
      |s| == 36 && s[0..8] == h0 && s[9..13] == h1 && s[14..18] == h2 && s[19..23] == h3 && s[24..36] == h4
  {
  }

  /** The GUID fields packed as struct.pack("<IHHBBBBBBBB") lays them out. */
  function PackGuid(first: nat, second: nat, third: nat, tail: seq<Byte>): seq<Byte> {
    LeBytes(first, 4) + LeBytes(second, 2) + LeBytes(third, 2) + tail
  }

  /** CanonicalFormatGuidToGptId: parse the five dash-separated fields and pack them. */
  function CanonicalFormatGuidToGptId(guid: string): (r: Result<Identity>)
    ensures r.Success? ==> r.value.flavor == Gpt
    ensures |Split(guid, '-')| != 5 ==> r == Failure(MalformedGuid)
  {
    var parts := Split(guid, '-');
    if |parts| != 5 then Failure(MalformedGuid)
    else
      match (HexNumber(parts[0]), HexNumber(parts[1]), HexNumber(parts[2]), Unhexlify(parts[3]), Unhexlify(parts[4]))
      case (Some(first), Some(second), Some(third), Some(fourth), Some(fifth)) =>
        if first >= Pow256(4) || second >= Pow256(2) || third >= Pow256(2) || |fourth| + |fifth| != 8 then
          Failure(GuidFieldOverflow)
        else
          NewId(Gpt, PackGuid(first, second, third, fourth + fifth))
      case _ => Failure(NonHexGuidField)
  }

  lemma {:induction false} HexHasNoDash(bs: seq<Byte>)
    ensures '-' !in Hexlify(bs)
  {
    var s := Hexlify(bs);
    forall i | 0 <= i < |s| ensures s[i] != '-' {
    }
  }

  /** Splitting five dash-free fields joined by dashes gives the fields back. */
  lemma {:induction false} SplitFiveFields(p0: string, p1: string, p2: string, p3: string, p4: string)
    requires '-' !in p0 && '-' !in p1 && '-' !in p2 && '-' !in p3 && '-' !in p4
    ensures Split(p0 + "-" + p1 + "-" + p2 + "-" + p3 + "-" + p4, '-') == [p0, p1, p2, p3, p4]
  {
    var s := p0 + "-" + p1 + "-" + p2 + "-" + p3 + "-" + p4;
    var t3 := p3 + ['-'] + p4;
    var t2 := p2 + ['-'] + t3;
    var t1 := p1 + ['-'] + t2;
    assert s == p0 + ['-'] + t1;
    SplitNoSeparator(p4, '-');
    SplitJoin(p3, '-', p4);
    assert Split(t3, '-') == [p3, p4];
    SplitJoin(p2, '-', t3);
    assert Split(t2, '-') == [p2, p3, p4];
    SplitJoin(p1, '-', t2);
    assert Split(t1, '-') == [p1, p2, p3, p4];
    SplitJoin(p0, '-', t1);
  }

  /** Parsing five well-formed fields joined by dashes packs their values. */
  lemma {:induction false} ParseFields(p0: string, p1: string, p2: string, p3: string, p4: string,
                    n0: nat, n1: nat, n2: nat, f3: seq<Byte>, f4: seq<Byte>)
    requires '-' !in p0 && '-' !in p1 && '-' !in p2 && '-' !in p3 && '-' !in p4
    requires HexNumber(p0) == Some(n0) && HexNumber(p1) == Some(n1) && HexNumber(p2) == Some(n2)
    requires Unhexlify(p3) == Some(f3) && Unhexlify(p4) == Some(f4)
    requires n0 < Pow256(4) && n1 < Pow256(2) && n2 < Pow256(2) && |f3| + |f4| == 8
    ensures CanonicalFormatGuidToGptId(p0 + "-" + p1 + "-" + p2 + "-" + p3 + "-" + p4)
      == Success(Id(Gpt, PackGuid(n0, n1, n2, f3 + f4)))
  {
    SplitFiveFields(p0, p1, p2, p3, p4);
  }

  /** One of the first three fields: printed reversed, read back as a little-endian number. */
  lemma {:induction false} NumericFieldRoundTrip(w: seq<Byte>)
    requires w != []
    ensures HexNumber(Hexlify(Reverse(w))) == Some(LeValue(w))
    ensures LeBytes(LeValue(w), |w|) == w
  {
    HexNumberOfHexlify(Reverse(w));
    BeValueOfReverse(w);
    LeBytesOfLeValue(w);
  }

  /** The formatted GUID is its five field texts joined by dashes. */
  lemma {:induction false} GuidTextFields(b: seq<Byte>)
    requires |b| == 16
    ensures BytesToCanonicalFormatGuid(b) ==
      Hexlify(Reverse(b[0..4])) + "-" + Hexlify(Reverse(b[4..6])) + "-" + Hexlify(Reverse(b[6..8])) + "-" +
      Hexlify(b[8..10]) + "-" + Hexlify(b[10..16])
    ensures '-' !in Hexlify(Reverse(b[0..4])) && '-' !in Hexlify(Reverse(b[4..6])) && '-' !in Hexlify(Reverse(b[6..8]))
    ensures '-' !in Hexlify(b[8..10]) && '-' !in Hexlify(b[10..16])
  {
    HexHasNoDash(Reverse(b[0..4]));
    HexHasNoDash(Reverse(b[4..6]));
    HexHasNoDash(Reverse(b[6..8]));
    HexHasNoDash(b[8..10]);
    HexHasNoDash(b[10..16]);
  }

  /** Raw GUID bytes survive formatting and parsing. */
  lemma {:induction false} GuidBytesRoundTrip(b: seq<Byte>)
    requires |b| == 16
    ensures CanonicalFormatGuidToGptId(BytesToCanonicalFormatGuid(b)) == Success(Id(Gpt, b))
  {
    var w0, w1, w2, w3, w4 := b[0..4], b[4..6], b[6..8], b[8..10], b[10..16];
    GuidTextFields(b);
    NumericFieldRoundTrip(w0);
    NumericFieldRoundTrip(w1);
    NumericFieldRoundTrip(w2);
    UnhexlifyHexlify(w3);
    UnhexlifyHexlify(w4);
    ParseFields(Hexlify(Reverse(w0)), Hexlify(Reverse(w1)), Hexlify(Reverse(w2)), Hexlify(w3), Hexlify(w4),
                LeValue(w0), LeValue(w1), LeValue(w2), w3, w4);
    PackSlices(b, LeValue(w0), LeValue(w1), LeValue(w2));
  }

  /** Packing the values of the first three fields with the raw tail rebuilds the GUID. */
  lemma {:induction false} PackSlices(b: seq<Byte>, n0: nat, n1: nat, n2: nat)
    requires |b| == 16
    requires LeBytes(n0, 4) == b[0..4] && LeBytes(n1, 2) == b[4..6] && LeBytes(n2, 2) == b[6..8]
    ensures PackGuid(n0, n1, n2, b[8..10] + b[10..16]) == b
  {
    assert b == b[0..4] + b[4..6] + b[6..8] + (b[8..10] + b[10..16]);
  }

  /** A lower-case numeric field read and printed back in byte order is unchanged. */
  lemma {:induction false} NumericTextRoundTrip(p: string, k: nat)
    requires |p| == 2 * k && p != [] && AllLowerHex(p)
    ensures HexNumber(p).Some? && HexNumber(p).value < Pow256(k)
    ensures Hexlify(Reverse(LeBytes(HexNumber(p).value, k))) == p
  {
    HexFixedOfHexNumber(p);
    Pow256IsPow16(k);
    ReverseLeBytes(HexNumber(p).value, k);
    HexlifyBeBytes(HexNumber(p).value, k);
  }

  /** A lower-case byte field read and printed back is unchanged. */
  lemma {:induction false} BytesTextRoundTrip(p: string)
    requires |p| % 2 == 0 && AllLowerHex(p)
    ensures Unhexlify(p).Some? && Hexlify(Unhexlify(p).value) == p
  {
    UnhexlifyDefined(p);
    HexlifyUnhexlify(p);
  }

  predicate AllLowerHex(p: string) {
    forall i :: 0 <= i < |p| ==> IsLowerHexDigit(p[i])
  }

  /** A dash-free stretch of a canonical GUID string is all digits. */
  lemma {:induction false} CanonicalField(s: string, lo: int, hi: int)
    requires IsCanonicalGuid(s) && 0 <= lo <= hi <= 36
    requires forall i :: lo <= i < hi ==> !IsDashPosition(i)
    ensures AllLowerHex(s[lo..hi])
  {
    forall i | 0 <= i < hi - lo ensures IsLowerHexDigit(s[lo..hi][i]) {
      assert s[lo..hi][i] == s[lo + i];
    }
  }

  /** Formatting packed fields prints each field back. */
  lemma {:induction false} FormatPacked(n0: nat, n1: nat, n2: nat, f3: seq<Byte>, f4: seq<Byte>)
    requires |f3| == 2 && |f4| == 6
    ensures BytesToCanonicalFormatGuid(PackGuid(n0, n1, n2, f3 + f4)) ==
      Hexlify(Reverse(LeBytes(n0, 4))) + "-" + Hexlify(Reverse(LeBytes(n1, 2))) + "-" +
      Hexlify(Reverse(LeBytes(n2, 2))) + "-" + Hexlify(f3) + "-" + Hexlify(f4)
  {
    var b := PackGuid(n0, n1, n2, f3 + f4);
    assert b[0..4] == LeBytes(n0, 4) && b[4..6] == LeBytes(n1, 2) && b[6..8] == LeBytes(n2, 2);
    assert b[8..10] == f3 && b[10..16] == f4;
  }

  /** A canonical lower-case GUID string survives parsing and formatting. */
  lemma {:induction false} GuidTextRoundTrip(s: string)
    requires IsCanonicalGuid(s)
    ensures CanonicalFormatGuidToGptId(s).Success?
    ensures BytesToCanonicalFormatGuid(CanonicalFormatGuidToGptId(s).value.bytes) == s
  {
    CanonicalField(s, 0, 8);
    CanonicalField(s, 9, 13);
    CanonicalField(s, 14, 18);
    CanonicalField(s, 19, 23);
    CanonicalField(s, 24, 36);
    CanonicalGuidJoin(s);
    FieldsRoundTrip(s[0..8], s[9..13], s[14..18], s[19..23], s[24..36]);
  }

  /** Five lower-case fields of the canonical widths, joined by dashes, survive parsing and formatting. */
  lemma {:induction false} FieldsRoundTrip(p0: string, p1: string, p2: string, p3: string, p4: string)
    requires |p0| == 8 && |p1| == 4 && |p2| == 4 && |p3| == 4 && |p4| == 12
    requires AllLowerHex(p0) && AllLowerHex(p1) && AllLowerHex(p2) && AllLowerHex(p3) && AllLowerHex(p4)
    ensures CanonicalFormatGuidToGptId(p0 + "-" + p1 + "-" + p2 + "-" + p3 + "-" + p4).Success?
    ensures BytesToCanonicalFormatGuid(CanonicalFormatGuidToGptId(p0 + "-" + p1 + "-" + p2 + "-" + p3 + "-" + p4).value.bytes)
      == p0 + "-" + p1 + "-" + p2 + "-" + p3 + "-" + p4
  {
    NumericTextRoundTrip(p0, 4);
    NumericTextRoundTrip(p1, 2);
    NumericTextRoundTrip(p2, 2);
    BytesTextRoundTrip(p3);
    BytesTextRoundTrip(p4);
    LowerHexHasNoDash(p0);
    LowerHexHasNoDash(p1);
    LowerHexHasNoDash(p2);
    LowerHexHasNoDash(p3);
    LowerHexHasNoDash(p4);
    var n0, n1, n2 := HexNumber(p0).value, HexNumber(p1).value, HexNumber(p2).value;
    var f3, f4 := Unhexlify(p3).value, Unhexlify(p4).value;
    ParseFields(p0, p1, p2, p3, p4, n0, n1, n2, f3, f4);
    FormatPacked(n0, n1, n2, f3, f4);
  }

  lemma {:induction false} LowerHexHasNoDash(p: string)
    requires AllLowerHex(p)
    ensures '-' !in p
  {
  }

  /** A canonical GUID string is its five fields joined by dashes. */
  lemma {:induction false} CanonicalGuidJoin(s: string)
    requires IsCanonicalGuid(s)
    ensures s == s[0..8] + "-" + s[9..13] + "-" + s[14..18] + "-" + s[19..23] + "-" + s[24..36]
  {
    assert s[8] == '-' && s[13] == '-' && s[18] == '-' && s[23] == '-';
  }
}
