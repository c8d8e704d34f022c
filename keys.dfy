/**
 * The status table's key: `(partition_key, service_name, service_key)`, compared field by
 * field in that order, the partition key numerically and the two byte strings
 * lexicographically. The byte layout the key codec gives these fields is not modelled.
 */
module Keys {
  import opened Types

  datatype ServiceStatusKey = ServiceStatusKey(
    partitionKey: PartitionKey,
    serviceName: Bytes,
    serviceKey: Bytes)

  /** The point key of a virtual object: its partition key, its service name and its key, in that order. */
  function WriteStatusKey(id: ServiceId): (k: ServiceStatusKey)
    ensures k.partitionKey == id.partitionKey && k.serviceName == id.serviceName && k.serviceKey == id.key
  {
    ServiceStatusKey(id.partitionKey, id.serviceName, id.key)
  }

  /** Distinct virtual objects never share a key, so a put or delete for one leaves the others alone. */
  lemma WriteStatusKeyInjective(a: ServiceId, b: ServiceId)
    ensures WriteStatusKey(a) == WriteStatusKey(b) <==> a == b
  {
  }

  /** Lexicographic order on byte strings; a proper prefix comes first. */
  predicate BytesLt(a: Bytes, b: Bytes)
    decreases |a|
  {
    if |a| == 0 then |b| > 0
    else |b| > 0 && (a[0] < b[0] || (a[0] == b[0] && BytesLt(a[1..], b[1..])))
  }

  lemma {:induction false} BytesLtIrreflexive(a: Bytes)
    ensures !BytesLt(a, a)
    decreases |a|
  {
    if |a| > 0 {
      BytesLtIrreflexive(a[1..]);
    }
  }

  lemma {:induction false} BytesLtTransitive(a: Bytes, b: Bytes, c: Bytes)
    requires BytesLt(a, b) && BytesLt(b, c)
    ensures BytesLt(a, c)
    decreases |a|
  {
    if |a| > 0 && a[0] == b[0] && b[0] == c[0] {
      BytesLtTransitive(a[1..], b[1..], c[1..]);
    }
  }

  lemma {:induction false} BytesLtTotal(a: Bytes, b: Bytes)
    ensures a == b || BytesLt(a, b) || BytesLt(b, a)
    decreases |a|
  {
    if |a| > 0 && |b| > 0 && a[0] == b[0] {
      BytesLtTotal(a[1..], b[1..]);
      if a[1..] == b[1..] {
        assert a == [a[0]] + a[1..] && b == [b[0]] + b[1..];
      }
    }
  }

  /**
   * The order in which the table's rows are stored and scanned. The partition key decides
   * first, so each partition's rows are contiguous and a partition range is one run of keys.
   */
  predicate KeyLt(a: ServiceStatusKey, b: ServiceStatusKey)
    ensures KeyLt(a, b) ==> a.partitionKey <= b.partitionKey
    ensures a.partitionKey < b.partitionKey ==> KeyLt(a, b)
  {
    || a.partitionKey < b.partitionKey
    || (a.partitionKey == b.partitionKey && BytesLt(a.serviceName, b.serviceName))
    || (a.partitionKey == b.partitionKey && a.serviceName == b.serviceName && BytesLt(a.serviceKey, b.serviceKey))
  }

  lemma KeyLtIrreflexive(a: ServiceStatusKey)
    ensures !KeyLt(a, a)
  {
    BytesLtIrreflexive(a.serviceName);
    BytesLtIrreflexive(a.serviceKey);
  }

  lemma KeyLtTransitive(a: ServiceStatusKey, b: ServiceStatusKey, c: ServiceStatusKey)
    requires KeyLt(a, b) && KeyLt(b, c)
    ensures KeyLt(a, c)
  {
    if a.partitionKey == b.partitionKey == c.partitionKey {
      if BytesLt(a.serviceName, b.serviceName) && BytesLt(b.serviceName, c.serviceName) {
        BytesLtTransitive(a.serviceName, b.serviceName, c.serviceName);
      } else if a.serviceName == b.serviceName == c.serviceName {
        BytesLtTransitive(a.serviceKey, b.serviceKey, c.serviceKey);
      }
    }
  }

  lemma KeyLtTotal(a: ServiceStatusKey, b: ServiceStatusKey)
    ensures a == b || KeyLt(a, b) || KeyLt(b, a)
  {
    BytesLtTotal(a.serviceName, b.serviceName);
    BytesLtTotal(a.serviceKey, b.serviceKey);
  }

  /** Keys in strictly ascending order, hence without repetition. */
  predicate StrictlyAscending(ks: seq<ServiceStatusKey>) {
    forall i, j :: 0 <= i < j < |ks| ==> KeyLt(ks[i], ks[j])
  }

  /** An ascending sequence holds a key at most once. */
  lemma AscendingHoldsKeyOnce(ks: seq<ServiceStatusKey>, key: ServiceStatusKey)
    requires StrictlyAscending(ks)
    requires forall i :: 0 <= i < |ks| ==> ks[i] == key
    ensures |ks| <= 1
  {
    if |ks| > 1 {
      assert KeyLt(ks[0], ks[1]);
      KeyLtIrreflexive(key);
      assert false;
    }
  }

  /** `m` is the first key of `ks` in key order. */
  predicate IsLeast(m: ServiceStatusKey, ks: set<ServiceStatusKey>) {
    m in ks && forall k :: k in ks ==> k == m || KeyLt(m, k)
  }

  lemma {:induction false} LeastExists(ks: set<ServiceStatusKey>)
    requires ks != {}
    ensures exists m :: IsLeast(m, ks)
    decreases ks
  {
    var x :| x in ks;
    if ks == {x} {
      assert IsLeast(x, ks);
    } else {
      LeastExists(ks - {x});
      var m :| IsLeast(m, ks - {x});
      KeyLtTotal(x, m);
      if KeyLt(x, m) {
        forall k | k in ks
          ensures k == x || KeyLt(x, k)
        {
          if k != x && k != m {
            KeyLtTransitive(x, m, k);
          }
        }
        assert IsLeast(x, ks);
      } else {
        assert IsLeast(m, ks);
      }
    }
  }

  /** The least key of a set is unique. */
  lemma LeastUnique(ks: set<ServiceStatusKey>)
    ensures forall m, n :: IsLeast(m, ks) && IsLeast(n, ks) ==> m == n
  {
    forall m, n | IsLeast(m, ks) && IsLeast(n, ks)
      ensures m == n
    {
      if m != n {
        assert KeyLt(m, n) && KeyLt(n, m);
        KeyLtTransitive(m, n, m);
        KeyLtIrreflexive(m);
      }
    }
  }

  /** The keys of a finite set in ascending order: the order the ordered store iterates them in. */
  function SortedKeys(ks: set<ServiceStatusKey>): (r: seq<ServiceStatusKey>)
    ensures forall k :: k in r <==> k in ks
    ensures forall i :: 0 <= i < |r| ==> r[i] in ks
    ensures StrictlyAscending(r)
    decreases ks
  {
    if ks == {} then []
    else
      LeastExists(ks);
      LeastUnique(ks);
      var m :| IsLeast(m, ks);
      [m] + SortedKeys(ks - {m})
  }
}
