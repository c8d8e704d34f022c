/** The domain types the status table works with. */
module Types {

  /** One octet of a byte string. */
  newtype byte = x: int | 0 <= x < 256

  /** An owned byte string (`Bytes`, and `ByteString`, which holds UTF-8 bytes). */
  type Bytes = seq<byte>

  /** `PartitionKey` is an unsigned 64-bit integer. */
  type PartitionKey = x: int | 0 <= x < 0x1_0000_0000_0000_0000

  /** Length in bytes of a well-formed invocation id (a UUID). */
  const INVOCATION_ID_LENGTH: nat := 16

  /** The invocation that holds a virtual object's lock. */
  type InvocationId = b: Bytes | |b| == INVOCATION_ID_LENGTH
    witness seq(INVOCATION_ID_LENGTH, _ => 0)

  /** A virtual object's identity: its service name, its key, and the partition key derived from them. */
  datatype ServiceId = ServiceId(serviceName: Bytes, key: Bytes, partitionKey: PartitionKey)

  /** The lock status of a virtual object. `Unlocked` is never stored: it is the absence of a row. */
  datatype VirtualObjectStatus = Unlocked | Locked(invocationId: InvocationId)

  /** Why a stored value could not be decoded as a wire message. */
  datatype DecodeError = UnexpectedEndOfInput | InvalidLength | UnknownField(tag: byte)

  /** Why a decoded wire message is not a valid domain status. */
  datatype ConversionError = MissingField(field: string) | InvalidData(field: string)

  /** The storage layer's error kinds: malformed bytes and invalid content are kept apart. */
  datatype StorageError =
    | Generic(decodeError: DecodeError)
    | Conversion(conversionError: ConversionError)

  /** An inclusive range of partition keys, `start..=end`; empty when `start > end`. */
  datatype PartitionKeyRange = RangeInclusive(start: PartitionKey, end: PartitionKey) {
    predicate Contains(pk: PartitionKey) {
      start <= pk <= end
    }
  }

  /** A row yielded by a scan of the table, owned and independent of the scan's iterator. */
  datatype OwnedVirtualObjectStatusRow = OwnedVirtualObjectStatusRow(
    partitionKey: PartitionKey,
    name: Bytes,
    key: Bytes,
    status: VirtualObjectStatus)
}
