/**
  ConcurrentMap<K, V>: a table of entries behind one mutex. Every public
  operation holds the lock for its whole body, so each call is one atomic step
  on the table; the lock itself is therefore implicit here, and each method is
  the sequential step it performs. The callbacks of find_and and remove_if are
  total functions: a mutator V -> V and a predicate V -> bool.
 */
module ConcurrentMaps {
  import opened Table

  class ConcurrentMap<K(==), V> {
    /** The std::map<K, V> the lock protects. */
    var entries: map<K, V>

    /** A new map holds no entries. */
    constructor ()
      ensures entries == map[]
    {
      entries := map[];
    }

    /** Inserts v under k, overwriting any value there; true exactly when k was new. */
    method Insert(k: K, v: V) returns (inserted: bool)
      modifies this
      ensures (entries, inserted) == InsertOrAssign(old(entries), k, v)
    {
      inserted := k !in entries;
      entries := entries[k := v];
    }

    /** Removes the entry for k, if there is one. */
    method Erase(k: K)
      modifies this
      ensures entries == Table.Erase(old(entries), k)
    {
      entries := entries - {k};
    }

    /** The number of entries. */
    method Size() returns (n: int)
      ensures n == |entries| && n >= 0
    {
      n := |entries|;
    }

    /** A copy of the value stored under k, or nothing when k is absent. */
    method FindCopy(k: K) returns (r: Option<V>)
      ensures r == Find(entries, k)
    {
      if k in entries {
        r := Some(entries[k]);
      } else {
        r := None;
      }
    }

    /** Whether some entry has key k. */
    method Contains(k: K) returns (b: bool)
      ensures b <==> k in entries
    {
      b := Count(entries, k) > 0;
    }

    /** Removes every entry. */
    method Clear()
      modifies this
      ensures entries == map[]
      ensures |entries| == 0 && forall k :: k !in entries
    {
      entries := map[];
    }

    /** Applies f to the value stored under k, if any; true exactly when k was present. */
    method FindAnd(k: K, f: V -> V) returns (found: bool)
      modifies this
      ensures (entries, found) == Update(old(entries), k, f)
    {
      if k in entries {
        entries := entries[k := f(entries[k])];
        found := true;
      } else {
        found := false;
      }
    }

    /** Moves the value under k out of the map and erases its entry; nothing when k is absent. */
    method Remove(k: K) returns (r: Option<V>)
      modifies this
      ensures (entries, r) == Extract(old(entries), k)
    {
      if k in entries {
        r := Some(entries[k]);
        entries := entries - {k};
      } else {
        r := None;
      }
    }

    /**
      Moves the value under k out of the map when p holds of it, as Remove does;
      otherwise (p false, or k absent) returns nothing and changes nothing.
     */
    method RemoveIf(k: K, p: V -> bool) returns (r: Option<V>)
      modifies this
      ensures (entries, r) == ExtractIf(old(entries), k, p)
    {
      r := None;
      if k in entries {
        if p(entries[k]) {
          r := Some(entries[k]);
          entries := entries - {k};
        }
      }
    }
  }
}
