# Virtual-object status table

A Dafny model of the storage layer's virtual-object status table. The table maps a
virtual object's identity, `(partition_key, service_name, service_key)`, to its lock
status, `Unlocked` or `Locked(invocation_id)`, on top of an ordered key-value store.

- **Sentinel as absence.** `Unlocked` is never stored. Putting it deletes the row, and a
  missing row reads back as `Unlocked`.
- **Upsert.** Any other status is encoded and overwrites the row; the last put wins.
- **Delete** removes the row unconditionally, so deleting twice is the same as once.
- **Two-stage read.** A present row is first decoded as a wire message and then validated
  into a domain status. Malformed bytes give `StorageError::Generic`; a well-formed but
  invalid message gives `StorageError::Conversion`.
- **Scan.** `all_virtual_object_status` walks every row whose partition key lies in an
  inclusive range, in ascending `(partition_key, name, key)` order, and turns each entry
  into an owned row. An unreadable entry ends the scan.

Modules, one per file:

- `Wrappers` (wrappers.dfy): `Option` and `Result`.
- `Types` (types.dfy): bytes, the 64-bit partition key, `ServiceId`, `VirtualObjectStatus`,
  the error kinds, the inclusive range and the owned row.
- `Keys` (keys.dfy): the table key, the key of an id, the key order (a strict total order,
  proved) and the ascending listing of a set of keys.
- `Codec` (codec.dfy): the value codec. It has a wire message with an optional oneof, a
  byte encoding of it, and the validating conversion to the domain status. Both round
  trips are proved.
- `StatusTable` (status_table.dfy): the store as a map. It holds the point read, the store
  after each write, the range iteration and the scan, with the lemmas relating them.
- `RocksDB` (rocksdb.dfy): the two handles as classes holding the store's rows in a field.
  `RocksDBStorage` offers only the read-only operations (read and scan).
  `RocksDBTransaction` offers read, put and delete, through the store primitives
  `get_blocking`, `put_kv` and `delete_key`.

Key order (`Keys.KeyLt`): partition key numerically, then service name, then service key,
each byte string compared lexicographically.

Value bytes: in this model the unset message is empty, `unlocked` is `[0x0A, 0x00]` and
`locked` is `0x12` followed by the invocation id. The conversion rejects an unset oneof
(`MissingField`) and an invocation id that is not 16 bytes long (`InvalidData`).

## Model

| member | source | states |
|---|---|---|
| `Keys.WriteStatusKey` | crates/storage-rocksdb/src/service_status_table/mod.rs:37-42 | the key of an id carries its partition key, service name and key, in that order |
| `Keys.WriteStatusKeyInjective` | crates/storage-rocksdb/src/service_status_table/mod.rs:37-42 | the key built from partition key, service name and key, in that order, is equal for two ids exactly when the ids are equal |
| `Keys.KeyLt` | crates/storage-rocksdb/src/service_status_table/mod.rs:28-35 | the key order puts a lower partition key first, and never puts a higher partition key before a lower one |
| `Keys.KeyLtIrreflexive` | crates/storage-rocksdb/src/service_status_table/mod.rs:28-35 | no table key precedes itself |
| `Keys.KeyLtTransitive` | crates/storage-rocksdb/src/service_status_table/mod.rs:28-35 | the `(partition_key, service_name, service_key)` order is transitive |
| `Keys.KeyLtTotal` | crates/storage-rocksdb/src/service_status_table/mod.rs:28-35 | any two distinct table keys are ordered one way or the other |
| `Keys.SortedKeys` | crates/storage-rocksdb/src/service_status_table/mod.rs:131 | a set of keys listed in strictly ascending order: exactly its members, each once |
| `Codec.EncodeProto` | crates/storage-rocksdb/src/service_status_table/mod.rs:56-57 | every wire message encodes to bytes that decode back to that message |
| `Codec.DecodeProto` | crates/storage-rocksdb/src/service_status_table/mod.rs:75-76 | empty bytes decode to the message with the oneof unset, and bytes opening with the locked tag decode to a lock on the rest; every decode error is on other bytes (stand-in format) |
| `Codec.DecodeProtoCanonical` | crates/storage-rocksdb/src/service_status_table/mod.rs:75-76 | bytes that decode are exactly the encoding of the decoded message (a property of the stand-in format) |
| `Codec.FromStatus` | crates/storage-rocksdb/src/service_status_table/mod.rs:56 | the wire message of a domain status always has its oneof set |
| `Codec.TryFromProto` | crates/storage-rocksdb/src/service_status_table/mod.rs:77 | validation fails exactly on an unset oneof or a malformed invocation id; a success converts back to the same message |
| `Codec.TryFromProtoFromStatus` | crates/storage-rocksdb/src/service_status_table/mod.rs:56-57 | validating the wire message of a status gives back that status |
| `Codec.Encode` | crates/storage-rocksdb/src/service_status_table/mod.rs:56-57 | the bytes stored for a status decode and validate back to that status, and are never empty |
| `Codec.DecodeStatus` | crates/storage-rocksdb/src/service_status_table/mod.rs:75-77 | a read of stored bytes fails with `Generic` carrying the decode error exactly when they do not decode, and with `Conversion` carrying the validation error exactly when they decode but do not validate; a success re-encodes to the same bytes (stand-in format) |
| `Codec.DecodeEncode` | crates/storage-rocksdb/src/service_status_table/mod.rs:56-57 | every status reads back as itself from the bytes it is stored as |
| `Codec.DecodeStatusIff` | crates/storage-rocksdb/src/service_status_table/mod.rs:75-77 | bytes read as status `s` exactly when they are the encoding of `s` (stand-in format) |
| `Codec.EncodeInjective` | crates/storage-rocksdb/src/service_status_table/mod.rs:56-57 | distinct statuses are stored as distinct bytes |
| `StatusTable.Lookup` | crates/storage-rocksdb/src/service_status_table/mod.rs:70-74 | the point lookup yields the stored bytes when the key is present and nothing otherwise |
| `StatusTable.DecodeStoredValue` | crates/storage-rocksdb/src/service_status_table/mod.rs:70-78 | the decode function of the read: no value is `Ok(Unlocked)`; a value fails with `Generic` carrying its decode error exactly when it does not decode, with `Conversion` carrying the validation error when it decodes but does not validate, and otherwise is the validated status |
| `StatusTable.GetVirtualObjectStatus` | crates/storage-rocksdb/src/service_status_table/mod.rs:61-79 | an absent row is `Ok(Unlocked)`; a present row reads as `s` exactly when it holds the encoding of `s`; the errors are `Generic` with the decode error exactly for undecodable bytes and `Conversion` with the validation error exactly for decodable but invalid ones |
| `StatusTable.StoreAfterPut` | crates/storage-rocksdb/src/service_status_table/mod.rs:44-59 | after a put the id's row exists exactly when the status is not `Unlocked` and then holds its encoding; every other row is unchanged |
| `StatusTable.StoreAfterDelete` | crates/storage-rocksdb/src/service_status_table/mod.rs:81-84 | after a delete the id has no row and every other row is unchanged |
| `StatusTable.GetAfterPut` | crates/storage-rocksdb/src/service_status_table/mod.rs:53-57 | a read after a put returns the status put, `Unlocked` included |
| `StatusTable.GetAfterPutOther` | crates/storage-rocksdb/src/service_status_table/mod.rs:49-52 | a put leaves the read of every other id unchanged |
| `StatusTable.PutOverwrites` | crates/storage-rocksdb/src/service_status_table/mod.rs:53-58 | two puts of one id leave the store the second alone would: last put wins, no merge |
| `StatusTable.PutUnlockedIsDelete` | crates/storage-rocksdb/src/service_status_table/mod.rs:53-54 | putting `Unlocked` leaves the same store as deleting the row |
| `StatusTable.PutLockedAddsOneRow` | crates/storage-rocksdb/src/service_status_table/mod.rs:55-57 | putting a locked status adds the id's key and no other, so the row count grows by one at most |
| `StatusTable.GetAfterDelete` | crates/storage-rocksdb/src/service_status_table/mod.rs:81-84 | after a delete the id reads as `Ok(Unlocked)` |
| `StatusTable.GetAfterDeleteOther` | crates/storage-rocksdb/src/service_status_table/mod.rs:81-84 | a delete leaves the read of every other id unchanged |
| `StatusTable.DeleteIdempotent` | crates/storage-rocksdb/src/service_status_table/mod.rs:81-84 | deleting twice is deleting once, and deleting an absent row changes nothing |
| `StatusTable.PutPreservesWellFormed` | crates/storage-rocksdb/src/service_status_table/mod.rs:53-58 | puts keep the invariant that every row decodes to a locked status |
| `StatusTable.DeletePreservesWellFormed` | crates/storage-rocksdb/src/service_status_table/mod.rs:81-84 | deletes keep the same invariant |
| `StatusTable.WellFormedGet` | crates/storage-rocksdb/src/service_status_table/mod.rs:70-77 | in a well-formed store a read never fails and is `Unlocked` exactly when the row is absent |
| `StatusTable.IteratorFrom` | crates/storage-rocksdb/src/service_status_table/mod.rs:131 | the range iteration yields exactly the stored rows whose partition key is in range, with their bytes, in strictly ascending key order |
| `StatusTable.RowId` | crates/storage-rocksdb/src/service_status_table/mod.rs:118-124 | the id of a row has the row's own key as its point key |
| `StatusTable.ToRow` | crates/storage-rocksdb/src/service_status_table/mod.rs:132-141 | an entry becomes the row with its key's fields and its decoded status, or the error its bytes raise |
| `StatusTable.MapRows` | crates/storage-rocksdb/src/service_status_table/mod.rs:132-142 | the per-entry map yields the rows of a prefix of the entries; it stops at, and reports, the first entry that does not decode |
| `StatusTable.AllVirtualObjectStatus` | crates/storage-rocksdb/src/service_status_table/mod.rs:127-143 | the rows yielded are in range, stored, carry their decoded status and ascend in key order; without a fault every row in range is yielded; a fault is the error of a row in range that follows all yielded rows, and every row in range before it was yielded |
| `StatusTable.YieldedBeforeFault` | crates/storage-rocksdb/src/service_status_table/mod.rs:132-142 | the per-entry map stops only after yielding every entry whose key precedes the unreadable one |
| `StatusTable.ScanFaultFollowsYielded` | crates/storage-rocksdb/src/service_status_table/mod.rs:131-142 | an aborted scan stops at the first unreadable row in range: it follows every yielded row, and every row in range before it was yielded |
| `StatusTable.ScanCoversIds` | crates/storage-rocksdb/src/service_status_table/mod.rs:131-142 | a scan that is not aborted yields a row for every virtual object stored in range |
| `StatusTable.ScanAgreesWithGet` | crates/storage-rocksdb/src/service_status_table/mod.rs:132-141 | each scanned row's status is what a point read of its id returns |
| `StatusTable.ScanOmitsRemoved` | crates/storage-rocksdb/src/service_status_table/mod.rs:131-142 | after a delete or a put of `Unlocked`, no scan yields a row for that id |
| `StatusTable.WellFormedScanCompletes` | crates/storage-rocksdb/src/service_status_table/mod.rs:133-135 | a scan of a well-formed store is never aborted |
| `StatusTable.ScanShowsPut` | crates/storage-rocksdb/src/service_status_table/mod.rs:131-142 | after a put of a locked status into a well-formed store, every scan covering the id yields that id's row with that status |
| `StatusTable.ScanSingleRow` | crates/storage-rocksdb/src/service_status_table/mod.rs:131-142 | a range holding one readable row scans to exactly that row |
| `StatusTable.ScanEmptyRange` | crates/storage-rocksdb/src/service_status_table/mod.rs:131-142 | a range holding no rows scans to nothing, without a fault |
| `StatusTable.ScenarioLockThenUnlock` | crates/storage-rocksdb/src/service_status_table/mod.rs:44-79 | lock `(5, "svc", [1,2])`: read and scan of `5..=5` show the lock; unlock: the read is `Unlocked` and the scan is empty |
| `StatusTable.ScenarioTwoPartitions` | crates/storage-rocksdb/src/service_status_table/mod.rs:127-143 | with rows in partitions 1 and 2, the scan of `1..=1` yields only the partition-1 row |
| `StatusTable.ScenarioCorruptRow` | crates/storage-rocksdb/src/service_status_table/mod.rs:75-76 | malformed bytes under an id's key: the read fails with `Generic`, and a scan covering it is aborted with the same error |
| `RocksDB.RocksDBStorage.GetBlocking` | crates/storage-rocksdb/src/service_status_table/mod.rs:70 | the direct handle's lookup returns the stored bytes, or nothing for an absent key |
| `RocksDB.RocksDBStorage.GetVirtualObjectStatus` | crates/storage-rocksdb/src/service_status_table/mod.rs:86-93 | the direct handle's read is the table's point read of its rows |
| `RocksDB.RocksDBStorage.AllVirtualObjectStatus` | crates/storage-rocksdb/src/service_status_table/mod.rs:126-143 | the direct handle's scan is the table's scan of its rows: rows stored and in range, in key order, each with the status its point read returns, covering the range unless aborted at the first unreadable row |
| `RocksDB.RocksDBTransaction.GetBlocking` | crates/storage-rocksdb/src/service_status_table/mod.rs:70 | the transaction's lookup sees its own rows |
| `RocksDB.RocksDBTransaction.PutKv` | crates/storage-rocksdb/src/service_status_table/mod.rs:57 | the store's upsert replaces or adds one row |
| `RocksDB.RocksDBTransaction.DeleteKey` | crates/storage-rocksdb/src/service_status_table/mod.rs:83 | the store's delete removes one row, if present |
| `RocksDB.RocksDBTransaction.GetVirtualObjectStatus` | crates/storage-rocksdb/src/service_status_table/mod.rs:95-102 | the transaction's read is the table's point read of its rows |
| `RocksDB.RocksDBTransaction.PutVirtualObjectStatus` | crates/storage-rocksdb/src/service_status_table/mod.rs:104-111 | the transaction's put leaves its rows as `StoreAfterPut` describes |
| `RocksDB.RocksDBTransaction.DeleteVirtualObjectStatus` | crates/storage-rocksdb/src/service_status_table/mod.rs:113-115 | the transaction's delete leaves its rows as `StoreAfterDelete` describes |
| `RocksDB.ReadYourWrites` | crates/storage-rocksdb/src/service_status_table/mod.rs:95-116 | on one transaction a read after a put returns the status put, and after a delete `Unlocked` |

## Left out

- The storage engine is not modelled. This covers RocksDB itself, transaction commit and
  abort, and snapshot isolation. Each handle holds the rows it sees as a map, and a
  transaction's map includes its own writes.
- The byte layout of keys is not modelled: the `define_table_key!` macro and `crate::keys`
  are not part of this model. Keys are structured triples. The model's order compares
  the two byte strings lexicographically. The engine's real order is the byte order of
  the length-delimited encoding, which this model does not reproduce.
- The partial key builder is not modelled: `ServiceStatusKey::default()` and its
  optional fields. Every key in the model is complete, so the scan's key deserialization
  and field `unwrap()`s (lines 133 and 137-139) cannot fail.
- The protobuf codec and the `storage::v1` schema conversions are not modelled; they are
  a foreign library and schema. They are replaced by the stand-in codec described above,
  with the same two failure kinds. The 16-byte invocation-id length is this model's
  choice.
- Codec.DecodeProto: reports a message holding only an unknown field as `UnknownField`, a
  `Generic` error. A protobuf decoder skips unknown fields, so such bytes would decode to an
  unset oneof and fail validation (`Conversion`) instead.
- Codec.DecodeProtoCanonical: canonical decoding is a property of the stand-in format only.
  A protobuf decoder accepts many byte strings for one message (unknown fields skipped,
  repeated fields merged).
- Codec.DecodeStatusIff: its "only if" half is the same stand-in canonicity; only the round
  trip of `DecodeEncode` carries over to the real codec.
- Codec.DecodeStatus: its clause that a success re-encodes to the same bytes holds of the
  stand-in format only.
- StatusTable.GetVirtualObjectStatus: its clause that a present row reads as `s` only when
  it holds exactly the encoding of `s` holds of the stand-in format only.
- `async` and the blocking behaviour of `get_blocking` are not modelled. Both are about
  scheduling, not results.
- The scan's value `unwrap()` panics (lines 134-135) are modelled as an abort that ends the
  scan and reports the error. The scan is a finished sequence, not a lazy, consume-once
  iterator.
- The partition key is a field of `ServiceId`; its derivation from the name and key
  happens outside this model.
- `RocksDBStorage` also implements the store's write primitives for other tables. The
  model gives it only what it offers this table: the read and the scan.
- `src/worker/src/ingress_integration.rs` is not modelled: the concurrent runner, the
  invocation factory (its key extractor is outside this model, and it draws time-based
  random ids) and its error mapping.
