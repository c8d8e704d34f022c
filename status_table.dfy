/**
 * The virtual-object status table over an abstract ordered key-value store: the point read
 * (`get_virtual_object_status`), the store each write leaves behind, and the partition-range
 * scan (`all_virtual_object_status`).
 */
module StatusTable {
  import opened Wrappers
  import opened Types
  import opened Keys
  import opened Codec

  /** The table's rows as the store holds them: one encoded value per key. */
  type Store = map<ServiceStatusKey, Bytes>

  /** The store's point lookup (`get_blocking` hands this to its decode function). */
  function Lookup(kv: Store, key: ServiceStatusKey): (v: Option<Bytes>)
    ensures v.Some? <==> key in kv
    ensures v.Some? ==> v.value == kv[key]
  {
    if key in kv then Some(kv[key]) else None
  }

  /** The decode function of a status read: a missing row is `Unlocked`, a present one is decoded and validated. */
  function DecodeStoredValue(v: Option<Bytes>): (r: Result<VirtualObjectStatus, StorageError>)
    ensures v.None? ==> r == Ok(Unlocked)
    ensures v.Some? && r.Ok? ==> DecodeProto(v.value).Ok? && TryFromProto(DecodeProto(v.value).value) == Ok(r.value)
    ensures r.Err? && r.error.Generic? <==> v.Some? && DecodeProto(v.value).Err?
    ensures r.Err? && r.error.Generic? ==> r.error.decodeError == DecodeProto(v.value).error
    ensures r.Err? && r.error.Conversion? ==>
      && v.Some? && DecodeProto(v.value).Ok? && TryFromProto(DecodeProto(v.value).value).Err?
      && r.error.conversionError == TryFromProto(DecodeProto(v.value).value).error
  {
    match v
    case None => Ok(Unlocked)
    case Some(bytes) => DecodeStatus(bytes)
  }

  /** The status of `id`: `Unlocked` when its row is absent, otherwise its decoded row or the error that stopped it. */
  function GetVirtualObjectStatus(kv: Store, id: ServiceId): (r: Result<VirtualObjectStatus, StorageError>)
    ensures WriteStatusKey(id) !in kv ==> r == Ok(Unlocked)
    ensures forall s :: WriteStatusKey(id) in kv ==> (r == Ok(s) <==> kv[WriteStatusKey(id)] == Encode(s))
    ensures r.Err? && r.error.Generic? <==>
      WriteStatusKey(id) in kv && DecodeProto(kv[WriteStatusKey(id)]).Err?
    ensures r.Err? && r.error.Conversion? <==>
      WriteStatusKey(id) in kv && DecodeProto(kv[WriteStatusKey(id)]).Ok?
      && TryFromProto(DecodeProto(kv[WriteStatusKey(id)]).value).Err?
    ensures r.Err? && r.error.Generic? ==>
      r.error.decodeError == DecodeProto(kv[WriteStatusKey(id)]).error
    ensures r.Err? && r.error.Conversion? ==>
      r.error.conversionError == TryFromProto(DecodeProto(kv[WriteStatusKey(id)]).value).error
  {
    var key := WriteStatusKey(id);
    forall s | key in kv
      ensures DecodeStatus(kv[key]) == Ok(s) <==> kv[key] == Encode(s)
    {
      DecodeStatusIff(kv[key], s);
    }
    DecodeStoredValue(Lookup(kv, key))
  }

  /** The store after `put_virtual_object_status(id, status)`. */
  function StoreAfterPut(kv: Store, id: ServiceId, status: VirtualObjectStatus): (r: Store)
    ensures WriteStatusKey(id) in r <==> status != Unlocked
    ensures WriteStatusKey(id) in r ==> r[WriteStatusKey(id)] == Encode(status)
    ensures r - {WriteStatusKey(id)} == kv - {WriteStatusKey(id)}
  {
    var key := WriteStatusKey(id);
    if status == Unlocked then kv - {key} else kv[key := Encode(status)]
  }

  /** The store after `delete_virtual_object_status(id)`. */
  function StoreAfterDelete(kv: Store, id: ServiceId): (r: Store)
    ensures WriteStatusKey(id) !in r
    ensures r - {WriteStatusKey(id)} == kv - {WriteStatusKey(id)}
  {
    kv - {WriteStatusKey(id)}
  }

  /** A put is read back: the last put wins, and putting `Unlocked` reads back as `Unlocked`. */
  lemma GetAfterPut(kv: Store, id: ServiceId, status: VirtualObjectStatus)
    ensures GetVirtualObjectStatus(StoreAfterPut(kv, id, status), id) == Ok(status)
  {
  }

  /** A put changes the status of no other virtual object. */
  lemma GetAfterPutOther(kv: Store, id: ServiceId, other: ServiceId, status: VirtualObjectStatus)
    requires other != id
    ensures GetVirtualObjectStatus(StoreAfterPut(kv, id, status), other) == GetVirtualObjectStatus(kv, other)
  {
    WriteStatusKeyInjective(id, other);
  }

  /** A second put of the same id overwrites the first (upsert, never merged). */
  lemma PutOverwrites(kv: Store, id: ServiceId, first: VirtualObjectStatus, second: VirtualObjectStatus)
    ensures StoreAfterPut(StoreAfterPut(kv, id, first), id, second) == StoreAfterPut(kv, id, second)
  {
  }

  /** Putting `Unlocked` is a delete: the row is removed, not written. */
  lemma PutUnlockedIsDelete(kv: Store, id: ServiceId)
    ensures StoreAfterPut(kv, id, Unlocked) == StoreAfterDelete(kv, id)
  {
  }

  /** A put of a locked status leaves exactly one row for the id and adds no other. */
  lemma PutLockedAddsOneRow(kv: Store, id: ServiceId, status: VirtualObjectStatus)
    requires status != Unlocked
    ensures StoreAfterPut(kv, id, status).Keys == kv.Keys + {WriteStatusKey(id)}
    ensures |StoreAfterPut(kv, id, status)| == if WriteStatusKey(id) in kv then |kv| else |kv| + 1
  {
  }

  /** After a delete the id reads back as `Unlocked`, never as an error. */
  lemma GetAfterDelete(kv: Store, id: ServiceId)
    ensures GetVirtualObjectStatus(StoreAfterDelete(kv, id), id) == Ok(Unlocked)
  {
  }

  /** A delete changes the status of no other virtual object. */
  lemma GetAfterDeleteOther(kv: Store, id: ServiceId, other: ServiceId)
    requires other != id
    ensures GetVirtualObjectStatus(StoreAfterDelete(kv, id), other) == GetVirtualObjectStatus(kv, other)
  {
    WriteStatusKeyInjective(id, other);
  }

  /** Deleting is idempotent, and deleting an absent row changes nothing. */
  lemma DeleteIdempotent(kv: Store, id: ServiceId)
    ensures StoreAfterDelete(StoreAfterDelete(kv, id), id) == StoreAfterDelete(kv, id)
    ensures WriteStatusKey(id) !in kv ==> StoreAfterDelete(kv, id) == kv
  {
  }

  /** The store invariant the writes keep: every row decodes, and none holds `Unlocked`. */
  predicate WellFormed(kv: Store) {
    forall k :: k in kv ==> DecodeStatus(kv[k]).Ok? && DecodeStatus(kv[k]).value != Unlocked
  }

  lemma PutPreservesWellFormed(kv: Store, id: ServiceId, status: VirtualObjectStatus)
    requires WellFormed(kv)
    ensures WellFormed(StoreAfterPut(kv, id, status))
  {
    var r := StoreAfterPut(kv, id, status);
    forall k | k in r
      ensures DecodeStatus(r[k]).Ok? && DecodeStatus(r[k]).value != Unlocked
    {
      if k == WriteStatusKey(id) {
        DecodeEncode(status);
      } else {
        assert k in r - {WriteStatusKey(id)};
        assert r[k] == (r - {WriteStatusKey(id)})[k] == (kv - {WriteStatusKey(id)})[k] == kv[k];
      }
    }
  }

  lemma DeletePreservesWellFormed(kv: Store, id: ServiceId)
    requires WellFormed(kv)
    ensures WellFormed(StoreAfterDelete(kv, id))
  {
  }

  /** In a well-formed store a read never fails, and reads `Unlocked` exactly when the row is absent. */
  lemma WellFormedGet(kv: Store, id: ServiceId)
    requires WellFormed(kv)
    ensures GetVirtualObjectStatus(kv, id).Ok?
    ensures GetVirtualObjectStatus(kv, id) == Ok(Unlocked) <==> WriteStatusKey(id) !in kv
  {
    var key := WriteStatusKey(id);
    if key in kv {
      assert DecodeStatus(kv[key]).Ok?;
    }
  }

  // ----- The partition-range scan -----

  /** One step of the store's iterator: a key and the bytes stored under it. */
  datatype Entry = Entry(key: ServiceStatusKey, value: Bytes)

  /**
   * The store's range iteration over the keys whose partition key lies in `range`:
   * exactly those rows, in ascending key order.
   */
  function IteratorFrom(kv: Store, range: PartitionKeyRange): (r: seq<Entry>)
    ensures forall i :: 0 <= i < |r| ==>
      r[i].key in kv && kv[r[i].key] == r[i].value && range.Contains(r[i].key.partitionKey)
    ensures forall k :: k in kv && range.Contains(k.partitionKey) ==> exists i :: 0 <= i < |r| && r[i].key == k
    ensures forall i, j :: 0 <= i < j < |r| ==> KeyLt(r[i].key, r[j].key)
  {
    var ks := SortedKeys(set k | k in kv && range.Contains(k.partitionKey));
    var r := seq(|ks|, i requires 0 <= i < |ks| => Entry(ks[i], kv[ks[i]]));
    assert forall k :: k in kv && range.Contains(k.partitionKey) ==> r[IndexOf(ks, k)].key == k;
    r
  }

  /** The position of a key in a sequence that holds it. */
  function IndexOf(ks: seq<ServiceStatusKey>, k: ServiceStatusKey): (i: nat)
    requires k in ks
    ensures i < |ks| && ks[i] == k
  {
    if ks[0] == k then 0 else 1 + IndexOf(ks[1..], k)
  }

  /** The stored key a row carries the fields of. */
  function RowKey(row: OwnedVirtualObjectStatusRow): (k: ServiceStatusKey) {
    ServiceStatusKey(row.partitionKey, row.name, row.key)
  }

  /** The identity of the virtual object a row belongs to. */
  function RowId(row: OwnedVirtualObjectStatusRow): (id: ServiceId)
    ensures WriteStatusKey(id) == RowKey(row)
  {
    ServiceId(row.name, row.key, row.partitionKey)
  }

  /** The owned row of one entry, or the error that makes the entry unreadable. */
  function ToRow(e: Entry): (r: Result<OwnedVirtualObjectStatusRow, StorageError>)
    ensures r.Ok? ==> RowKey(r.value) == e.key && DecodeStatus(e.value) == Ok(r.value.status)
    ensures r.Err? ==> DecodeStatus(e.value) == Err(r.error)
  {
    match DecodeStatus(e.value)
    case Ok(status) => Ok(OwnedVirtualObjectStatusRow(e.key.partitionKey, e.key.serviceName, e.key.serviceKey, status))
    case Err(err) => Err(err)
  }

  /**
   * What a scan delivers: the rows it yielded, and the error of the entry it stopped at,
   * if one could not be decoded (the scan is aborted there, nothing after it is yielded).
   */
  datatype Scan = Scan(rows: seq<OwnedVirtualObjectStatusRow>, fault: Option<StorageError>)

  /** The lazy per-entry map of a scan: rows up to the first unreadable entry. */
  function MapRows(entries: seq<Entry>): (r: Scan)
    ensures |r.rows| <= |entries|
    ensures forall i :: 0 <= i < |r.rows| ==> ToRow(entries[i]) == Ok(r.rows[i])
    ensures r.fault.None? ==> |r.rows| == |entries|
    ensures r.fault.Some? ==> |r.rows| < |entries| && ToRow(entries[|r.rows|]) == Err(r.fault.value)
  {
    if entries == [] then Scan([], None)
    else
      match ToRow(entries[0])
      case Err(e) => Scan([], Some(e))
      case Ok(row) =>
        var rest := MapRows(entries[1..]);
        Scan([row] + rest.rows, rest.fault)
  }

  /**
   * The scan of every row whose partition key lies in `range`. Each yielded row is in range,
   * carries the fields of its stored key and the decoded status, and the rows come in
   * ascending `(partition_key, name, key)` order. Without a fault every row in range is
   * yielded; a fault is the error of a row in range that follows every yielded row.
   */
  function AllVirtualObjectStatus(kv: Store, range: PartitionKeyRange): (r: Scan)
    ensures forall i :: 0 <= i < |r.rows| ==>
      && range.Contains(r.rows[i].partitionKey)
      && RowKey(r.rows[i]) in kv
      && DecodeStatus(kv[RowKey(r.rows[i])]) == Ok(r.rows[i].status)
    ensures forall i, j :: 0 <= i < j < |r.rows| ==> KeyLt(RowKey(r.rows[i]), RowKey(r.rows[j]))
    ensures r.fault.None? ==>
      forall k :: k in kv && range.Contains(k.partitionKey) ==> exists i :: 0 <= i < |r.rows| && RowKey(r.rows[i]) == k
    ensures r.fault.Some? ==>
      exists k :: && k in kv && range.Contains(k.partitionKey)
                  && DecodeStatus(kv[k]) == Err(r.fault.value)
                  && (forall i :: 0 <= i < |r.rows| ==> KeyLt(RowKey(r.rows[i]), k))
                  && forall k' :: k' in kv && range.Contains(k'.partitionKey) && KeyLt(k', k) ==>
                       exists i :: 0 <= i < |r.rows| && RowKey(r.rows[i]) == k'
  {
    var entries := IteratorFrom(kv, range);
    var r := MapRows(entries);
    assert forall i :: 0 <= i < |r.rows| ==> RowKey(r.rows[i]) == entries[i].key;
    ScanFaultFollowsYielded(kv, range);
    r
  }

  /** The fault of a scan is the first unreadable row in range: every row in range before it was yielded. */
  lemma ScanFaultFollowsYielded(kv: Store, range: PartitionKeyRange)
    ensures var r := MapRows(IteratorFrom(kv, range));
      r.fault.Some? ==>
      exists k :: && k in kv && range.Contains(k.partitionKey)
                  && DecodeStatus(kv[k]) == Err(r.fault.value)
                  && (forall i :: 0 <= i < |r.rows| ==> KeyLt(RowKey(r.rows[i]), k))
                  && forall k' :: k' in kv && range.Contains(k'.partitionKey) && KeyLt(k', k) ==>
                       exists i :: 0 <= i < |r.rows| && RowKey(r.rows[i]) == k'
  {
    var entries := IteratorFrom(kv, range);
    var r := MapRows(entries);
    if r.fault.Some? {
      var n := |r.rows|;
      var k := entries[n].key;
      forall i | 0 <= i < n
        ensures KeyLt(RowKey(r.rows[i]), k)
      {
        assert RowKey(r.rows[i]) == entries[i].key;
      }
      YieldedBeforeFault(entries);
      forall k' | k' in kv && range.Contains(k'.partitionKey) && KeyLt(k', k)
        ensures exists i :: 0 <= i < n && RowKey(r.rows[i]) == k'
      {
        var j :| 0 <= j < |entries| && entries[j].key == k';
        assert j < n;
        assert RowKey(r.rows[j]) == k';
      }
      assert DecodeStatus(kv[k]) == Err(r.fault.value);
    }
  }

  /** In an ascending entry sequence, an entry whose key precedes another's comes before it. */
  lemma EntryBefore(entries: seq<Entry>, j: nat, n: nat)
    requires forall a, b :: 0 <= a < b < |entries| ==> KeyLt(entries[a].key, entries[b].key)
    requires j < |entries| && n < |entries| && KeyLt(entries[j].key, entries[n].key)
    ensures j < n
  {
    if j == n {
      KeyLtIrreflexive(entries[n].key);
      assert false;
    } else if j > n {
      KeyLtTransitive(entries[n].key, entries[j].key, entries[n].key);
      KeyLtIrreflexive(entries[n].key);
      assert false;
    }
  }

  /** A scan stops only after yielding every entry whose key precedes the unreadable one. */
  lemma YieldedBeforeFault(entries: seq<Entry>)
    requires forall a, b :: 0 <= a < b < |entries| ==> KeyLt(entries[a].key, entries[b].key)
    ensures var r := MapRows(entries);
      r.fault.Some? ==>
        forall j :: 0 <= j < |entries| && KeyLt(entries[j].key, entries[|r.rows|].key) ==> j < |r.rows|
  {
    var r := MapRows(entries);
    if r.fault.Some? {
      forall j | 0 <= j < |entries| && KeyLt(entries[j].key, entries[|r.rows|].key)
        ensures j < |r.rows|
      {
        EntryBefore(entries, j, |r.rows|);
      }
    }
  }

  // ----- What the scan shows of the writes -----

  /** A scanned row reads back the same status through a point read of its id. */
  lemma ScanAgreesWithGet(kv: Store, range: PartitionKeyRange)
    ensures var rows := AllVirtualObjectStatus(kv, range).rows;
      forall i :: 0 <= i < |rows| ==> GetVirtualObjectStatus(kv, RowId(rows[i])) == Ok(rows[i].status)
  {
    var rows := AllVirtualObjectStatus(kv, range).rows;
    forall i | 0 <= i < |rows|
      ensures GetVirtualObjectStatus(kv, RowId(rows[i])) == Ok(rows[i].status)
    {
      assert DecodeStatus(kv[RowKey(rows[i])]) == Ok(rows[i].status);
    }
  }

  /** A scan that is not aborted yields a row for every virtual object stored in range. */
  lemma ScanCoversIds(kv: Store, range: PartitionKeyRange)
    ensures var scan := AllVirtualObjectStatus(kv, range);
      scan.fault.None? ==> forall id: ServiceId :: range.Contains(id.partitionKey) && WriteStatusKey(id) in kv ==>
        exists i :: 0 <= i < |scan.rows| && RowId(scan.rows[i]) == id
  {
    var scan := AllVirtualObjectStatus(kv, range);
    if scan.fault.None? {
      forall id: ServiceId | range.Contains(id.partitionKey) && WriteStatusKey(id) in kv
        ensures exists i :: 0 <= i < |scan.rows| && RowId(scan.rows[i]) == id
      {
        var i :| 0 <= i < |scan.rows| && RowKey(scan.rows[i]) == WriteStatusKey(id);
        assert RowId(scan.rows[i]) == id;
      }
    }
  }

  /** After a delete, or a put of `Unlocked`, no scan yields a row for the id. */
  lemma ScanOmitsRemoved(kv: Store, id: ServiceId, range: PartitionKeyRange)
    ensures forall row :: row in AllVirtualObjectStatus(StoreAfterDelete(kv, id), range).rows ==> RowId(row) != id
    ensures forall row :: row in AllVirtualObjectStatus(StoreAfterPut(kv, id, Unlocked), range).rows ==> RowId(row) != id
  {
    PutUnlockedIsDelete(kv, id);
    var after := StoreAfterDelete(kv, id);
    var scan := AllVirtualObjectStatus(after, range);
    forall row | row in scan.rows
      ensures RowId(row) != id
    {
      var i :| 0 <= i < |scan.rows| && scan.rows[i] == row;
      assert RowKey(row) in after;
    }
  }

  /** A scan of a well-formed store is never aborted. */
  lemma WellFormedScanCompletes(kv: Store, range: PartitionKeyRange)
    requires WellFormed(kv)
    ensures AllVirtualObjectStatus(kv, range).fault.None?
  {
  }

  /** After a put of a locked status into a well-formed store, every scan covering the id yields that row. */
  lemma ScanShowsPut(kv: Store, id: ServiceId, status: VirtualObjectStatus, range: PartitionKeyRange)
    requires WellFormed(kv) && status != Unlocked && range.Contains(id.partitionKey)
    ensures OwnedVirtualObjectStatusRow(id.partitionKey, id.serviceName, id.key, status)
      in AllVirtualObjectStatus(StoreAfterPut(kv, id, status), range).rows
  {
    var after := StoreAfterPut(kv, id, status);
    PutPreservesWellFormed(kv, id, status);
    WellFormedScanCompletes(after, range);
    var scan := AllVirtualObjectStatus(after, range);
    var key := WriteStatusKey(id);
    assert key in after && range.Contains(key.partitionKey);
    var i :| 0 <= i < |scan.rows| && RowKey(scan.rows[i]) == key;
    DecodeEncode(status);
    assert scan.rows[i].status == status;
  }

  /** A scan whose range holds exactly one readable row yields exactly that row. */
  lemma ScanSingleRow(kv: Store, range: PartitionKeyRange, key: ServiceStatusKey, status: VirtualObjectStatus)
    requires key in kv && range.Contains(key.partitionKey) && DecodeStatus(kv[key]) == Ok(status)
    requires forall k :: k in kv && range.Contains(k.partitionKey) ==> k == key
    ensures AllVirtualObjectStatus(kv, range) ==
      Scan([OwnedVirtualObjectStatusRow(key.partitionKey, key.serviceName, key.serviceKey, status)], None)
  {
    var scan := AllVirtualObjectStatus(kv, range);
    var i :| 0 <= i < |scan.rows| && RowKey(scan.rows[i]) == key;
    AscendingHoldsKeyOnce(seq(|scan.rows|, j requires 0 <= j < |scan.rows| => RowKey(scan.rows[j])), key);
    assert scan.rows[0].status == status;
  }

  /** A scan whose range holds no row yields nothing and is not aborted. */
  lemma ScanEmptyRange(kv: Store, range: PartitionKeyRange)
    requires forall k :: k in kv ==> !range.Contains(k.partitionKey)
    ensures AllVirtualObjectStatus(kv, range) == Scan([], None)
  {
  }

  // ----- Worked scenarios -----

  /** The service name "svc". */
  const SVC: Bytes := [0x73, 0x76, 0x63]

  /**
   * Lock then unlock `(pk=5, name="svc", key=[1,2])`: while locked, the read and the scan of
   * partition 5 show the lock; after unlocking, the read is `Unlocked` and the scan is empty.
   */
  lemma ScenarioLockThenUnlock(info: InvocationId)
    ensures var id := ServiceId(SVC, [1, 2], 5);
            var locked := StoreAfterPut(map[], id, Locked(info));
            var unlocked := StoreAfterPut(locked, id, Unlocked);
            && GetVirtualObjectStatus(locked, id) == Ok(Locked(info))
            && AllVirtualObjectStatus(locked, RangeInclusive(5, 5))
               == Scan([OwnedVirtualObjectStatusRow(5, SVC, [1, 2], Locked(info))], None)
            && GetVirtualObjectStatus(unlocked, id) == Ok(Unlocked)
            && AllVirtualObjectStatus(unlocked, RangeInclusive(5, 5)) == Scan([], None)
  {
    var id := ServiceId(SVC, [1, 2], 5);
    var locked := StoreAfterPut(map[], id, Locked(info));
    GetAfterPut(map[], id, Locked(info));
    DecodeEncode(Locked(info));
    ScanSingleRow(locked, RangeInclusive(5, 5), WriteStatusKey(id), Locked(info));
    var unlocked := StoreAfterPut(locked, id, Unlocked);
    GetAfterPut(locked, id, Unlocked);
    assert unlocked == map[];
    ScanEmptyRange(unlocked, RangeInclusive(5, 5));
  }

  /** Rows in partitions 1 and 2: the scan of `1..=1` yields only the row of partition 1. */
  lemma ScenarioTwoPartitions(a: ServiceId, b: ServiceId, sa: VirtualObjectStatus, sb: VirtualObjectStatus)
    requires a.partitionKey == 1 && b.partitionKey == 2
    requires sa != Unlocked && sb != Unlocked
    ensures AllVirtualObjectStatus(StoreAfterPut(StoreAfterPut(map[], a, sa), b, sb), RangeInclusive(1, 1))
      == Scan([OwnedVirtualObjectStatusRow(1, a.serviceName, a.key, sa)], None)
  {
    var kv := StoreAfterPut(StoreAfterPut(map[], a, sa), b, sb);
    var ka := WriteStatusKey(a);
    assert kv == map[ka := Encode(sa), WriteStatusKey(b) := Encode(sb)];
    DecodeEncode(sa);
    ScanSingleRow(kv, RangeInclusive(1, 1), ka, sa);
  }

  /**
   * Malformed bytes written straight to an id's key: the read returns a `Generic` error, and a
   * scan covering the key is aborted with the same error, yielding nothing.
   */
  lemma ScenarioCorruptRow(id: ServiceId)
    ensures var kv := map[WriteStatusKey(id) := [0xFF]];
            var range := RangeInclusive(id.partitionKey, id.partitionKey);
            && GetVirtualObjectStatus(kv, id) == Err(Generic(UnknownField(0xFF)))
            && AllVirtualObjectStatus(kv, range) == Scan([], Some(Generic(UnknownField(0xFF))))
  {
    var key := WriteStatusKey(id);
    var kv := map[key := [0xFF]];
    assert DecodeStatus(kv[key]) == Err(Generic(UnknownField(0xFF)));
  }
}
