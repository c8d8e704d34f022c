/**
 * The two storage handles and the status-table operations each one offers. Both hold the
 * rows they can see as `kv`; the transaction's view includes its own writes. The direct
 * handle offers only the read-only operations (the point read and the scan); only the
 * transaction can put and delete.
 */
module RocksDB {
  import opened Wrappers
  import opened Types
  import opened Keys
  import opened Codec
  import StatusTable

  /** Direct, non-transactional access to the store. */
  class RocksDBStorage {
    var kv: StatusTable.Store

    constructor (contents: StatusTable.Store)
      ensures kv == contents
    {
      kv := contents;
    }

    /** The store's point lookup. */
    method GetBlocking(key: ServiceStatusKey) returns (v: Option<Bytes>)
      ensures key in kv ==> v == Some(kv[key])
      ensures key !in kv ==> v == None
    {
      v := if key in kv then Some(kv[key]) else None;
    }

    /** The read-only table's point read. */
    method GetVirtualObjectStatus(id: ServiceId) returns (r: Result<VirtualObjectStatus, StorageError>)
      ensures r == StatusTable.GetVirtualObjectStatus(kv, id)
    {
      var key := WriteStatusKey(id);
      var v := GetBlocking(key);
      r := StatusTable.DecodeStoredValue(v);
    }

    /**
     * The scan of every row whose partition key lies in `range`: it is the table's scan of
     * this handle's rows, so the rows yielded are stored and in range, ordered by key, read
     * back as their decoded status, and cover the range unless the scan was aborted by an
     * unreadable row, which follows every row yielded and every row in range before it.
     */
    function AllVirtualObjectStatus(range: PartitionKeyRange): (r: StatusTable.Scan)
      reads this
      ensures r == StatusTable.AllVirtualObjectStatus(kv, range)
      ensures forall i :: 0 <= i < |r.rows| ==>
        && range.Contains(r.rows[i].partitionKey)
        && StatusTable.RowKey(r.rows[i]) in kv
        && StatusTable.GetVirtualObjectStatus(kv, StatusTable.RowId(r.rows[i])) == Ok(r.rows[i].status)
      ensures forall i, j :: 0 <= i < j < |r.rows| ==>
        KeyLt(StatusTable.RowKey(r.rows[i]), StatusTable.RowKey(r.rows[j]))
      ensures r.fault.None? ==> forall id: ServiceId :: range.Contains(id.partitionKey) && WriteStatusKey(id) in kv ==>
        exists i :: 0 <= i < |r.rows| && StatusTable.RowId(r.rows[i]) == id
    {
      StatusTable.ScanAgreesWithGet(kv, range);
      StatusTable.ScanCoversIds(kv, range);
      StatusTable.AllVirtualObjectStatus(kv, range)
    }
  }

  /** Transactional access: reads see the transaction's own earlier writes. */
  class RocksDBTransaction {
    var kv: StatusTable.Store

    constructor (snapshot: StatusTable.Store)
      ensures kv == snapshot
    {
      kv := snapshot;
    }

    /** The store's point lookup. */
    method GetBlocking(key: ServiceStatusKey) returns (v: Option<Bytes>)
      ensures key in kv ==> v == Some(kv[key])
      ensures key !in kv ==> v == None
    {
      v := if key in kv then Some(kv[key]) else None;
    }

    /** The store's upsert of one row. */
    method PutKv(key: ServiceStatusKey, value: Bytes)
      modifies this
      ensures kv == old(kv)[key := value]
    {
      kv := kv[key := value];
    }

    /** The store's removal of one row; removing an absent row is allowed. */
    method DeleteKey(key: ServiceStatusKey)
      modifies this
      ensures kv == old(kv) - {key}
    {
      kv := kv - {key};
    }

    /** The table's point read. */
    method GetVirtualObjectStatus(id: ServiceId) returns (r: Result<VirtualObjectStatus, StorageError>)
      ensures r == StatusTable.GetVirtualObjectStatus(kv, id)
    {
      var key := WriteStatusKey(id);
      var v := GetBlocking(key);
      r := StatusTable.DecodeStoredValue(v);
    }

    /** Sets the status of `id`: `Unlocked` deletes its row, any other status is encoded and upserted. */
    method PutVirtualObjectStatus(id: ServiceId, status: VirtualObjectStatus)
      modifies this
      ensures kv == StatusTable.StoreAfterPut(old(kv), id, status)
    {
      var key := ServiceStatusKey(id.partitionKey, id.serviceName, id.key);
      if status == Unlocked {
        DeleteKey(key);
      } else {
        var value := Encode(status);
        PutKv(key, value);
      }
    }

    /** Removes the row of `id`, present or not. */
    method DeleteVirtualObjectStatus(id: ServiceId)
      modifies this
      ensures kv == StatusTable.StoreAfterDelete(old(kv), id)
    {
      var key := WriteStatusKey(id);
      DeleteKey(key);
    }
  }

  /** A transaction reads its own writes: after a put the read returns the status put, after a delete `Unlocked`. */
  method ReadYourWrites(t: RocksDBTransaction, id: ServiceId, status: VirtualObjectStatus)
    returns (afterPut: Result<VirtualObjectStatus, StorageError>, afterDelete: Result<VirtualObjectStatus, StorageError>)
    modifies t
    ensures afterPut == Ok(status) && afterDelete == Ok(Unlocked)
  {
    t.PutVirtualObjectStatus(id, status);
    StatusTable.GetAfterPut(old(t.kv), id, status);
    afterPut := t.GetVirtualObjectStatus(id);
    ghost var before := t.kv;
    t.DeleteVirtualObjectStatus(id);
    StatusTable.GetAfterDelete(before, id);
    afterDelete := t.GetVirtualObjectStatus(id);
  }
}
