/** Option, the P2V failure kinds, and a failure-compatible Result. */
module Wrappers {

  datatype Option<+T> = None | Some(value: T)

  /** One constructor per distinct way the modelled code raises. */
  datatype Error =
    // p2v/sectors.py
    | NotSectorAligned
    // p2v/identity.py: encoded identities and GUID text
    | MalformedIdentity        // "flavor/hex" does not split into exactly two parts
    | NonHexIdentity           // the hex part is not an even run of hex digits
    | UnknownFlavor
    | InvalidIdentityLength
    | MalformedGuid            // the GUID text does not split into five parts
    | NonHexGuidField          // a GUID field is not hexadecimal
    | GuidFieldOverflow        // a GUID field does not fit its packed width
    // p2v/partition.py
    | MisalignedOffset
    | MisalignedLength
    | UnknownStyle
    | InsufficientOffset
    | NonPositiveLength
    | PartitionsNotSane
    | EmptyPartitionList
    | VolumeComparedWithNone   // Volume.__eq__ dereferences a missing volume
    // p2v/disk.py
    | SanityCheckFailed
    | MissingExtendedPartition
    | LogicalBoundsExceeded
    | IdentityMismatch
    | LengthExceeded
    | NotUnique                // the assertion in find_only
    | NoSuchFlavor
    | NoPartitions             // indexing the first partition of an empty disk

  datatype Result<+T> = Success(value: T) | Failure(error: Error) {
    predicate IsFailure() { Failure? }
    function PropagateFailure<U>(): Result<U> requires Failure? { Failure(error) }
    function Extract(): T requires Success? { value }
  }
}
