/** `removeUndefinedProperties` of lib/utils.ts: an object is the ordered list
    of its own entries (what `Object.entries` yields), and the helper keeps the
    entries whose value is not `undefined` (`filter`), rebuilding an object
    from them (`Object.fromEntries`). */
module Utils {
  import opened Wrappers
  import opened Seqs

  /** A JavaScript property value; `undefined` and `null` are distinct. */
  datatype Field<+V> = Undefined | Null | Value(v: V)

  /** An optional TypeScript property (`title?: string`): absent reads as `undefined`. */
  function FromOption<V>(o: Option<V>): Field<V> {
    match o
    case None => Undefined
    case Some(v) => Value(v)
  }

  /** The key of an entry. */
  function EntryKey<K, V>(e: (K, Field<V>)): K {
    e.0
  }

  /** The filter's test: the value is not `undefined`. */
  predicate IsDefined<K, V>(e: (K, Field<V>)) {
    !e.1.Undefined?
  }

  /** The object's entries have distinct keys, as `Object.entries` guarantees. */
  predicate IsObject<K(==), V>(obj: seq<(K, Field<V>)>) {
    DistinctBy(obj, EntryKey)
  }

  /** Reading property `k`: the value of the entry with that key, `undefined` if there is none. */
  function Get<K(==), V>(obj: seq<(K, Field<V>)>, k: K): Field<V> {
    match FindByKey(obj, EntryKey, k)
    case None => Undefined
    case Some(e) => e.1
  }

  function RemoveUndefinedProperties<K(!new), V(!new)>(obj: seq<(K, Field<V>)>): (r: seq<(K, Field<V>)>)
    ensures forall e :: e in r <==> e in obj && !e.1.Undefined?
    ensures |r| <= |obj|
  {
    Filter(obj, IsDefined)
  }

  /** `null`-valued entries are kept: only `undefined` is dropped. */
  lemma NullKept<K(!new), V(!new)>(obj: seq<(K, Field<V>)>, k: K)
    requires (k, Null) in obj
    ensures (k, Null) in RemoveUndefinedProperties(obj)
  {
  }

  /** The result is an object again (no key twice) whose keys the input had. */
  lemma RemoveUndefinedIsObject<K(!new), V(!new)>(obj: seq<(K, Field<V>)>)
    requires IsObject(obj)
    ensures IsObject(RemoveUndefinedProperties(obj))
    ensures KeySet(RemoveUndefinedProperties(obj), EntryKey) <= KeySet(obj, EntryKey)
  {
    FilterPreservesDistinct(obj, IsDefined, EntryKey);
    FilterKeys(obj, IsDefined, EntryKey);
  }

  /** Applying the helper twice equals applying it once. */
  lemma RemoveUndefinedIdempotent<K(!new), V(!new)>(obj: seq<(K, Field<V>)>)
    ensures RemoveUndefinedProperties(RemoveUndefinedProperties(obj)) == RemoveUndefinedProperties(obj)
  {
    FilterIdempotent(obj, IsDefined);
  }

  /** Dropping the undefined entries changes no property read: every key
      reads the same value (absent and `undefined` both read `undefined`),
      and the result has property `k` exactly when the input's value at `k`
      is defined. */
  lemma RemoveUndefinedPreservesReads<K(!new), V(!new)>(obj: seq<(K, Field<V>)>, k: K)
    requires IsObject(obj)
    ensures Get(RemoveUndefinedProperties(obj), k) == Get(obj, k)
    ensures k in KeySet(RemoveUndefinedProperties(obj), EntryKey) <==> !Get(obj, k).Undefined?
  {
  }
}
