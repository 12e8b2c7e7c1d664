/**
  The entry table of a ConcurrentMap, as a value: a finite map from keys to
  values (the std::map<K, V> behind the map's lock). Each function below is the
  meaning of one table operation ConcurrentMap performs while it holds its lock:
  a std::map call, or the class's own find followed by an in-place change or an
  erase. size and clear need no function: they are |m| and map[]. The class in
  concurrent_map.dfy is specified by these functions.
 */
module Table {

  /** std::optional<V>: a value, or nothing. */
  datatype Option<T> = None | Some(value: T)

  /** std::map::insert_or_assign: the new table, and whether the key was new. */
  function InsertOrAssign<K, V>(m: map<K, V>, k: K, v: V): (r: (map<K, V>, bool))
    ensures r.1 <==> k !in m
    ensures k in r.0 && r.0[k] == v
    ensures r.0.Keys == m.Keys + {k}
    ensures forall j :: j in m && j != k ==> r.0[j] == m[j]
    ensures |r.0| == if k in m then |m| else |m| + 1
  {
    (m[k := v], k !in m)
  }

  /** std::map::erase by key: the table without k; absent keys change nothing. */
  function Erase<K, V>(m: map<K, V>, k: K): (r: map<K, V>)
    ensures k !in r
    ensures r.Keys == m.Keys - {k}
    ensures forall j :: j in m && j != k ==> r[j] == m[j]
    ensures k !in m ==> r == m
    ensures |r| == if k in m then |m| - 1 else |m|
  {
    m - {k}
  }

  /** std::map::find, followed by a copy of the value found. */
  function Find<K, V>(m: map<K, V>, k: K): (r: Option<V>)
    ensures r.Some? <==> k in m
    ensures r.Some? ==> r.value == m[k]
  {
    if k in m then Some(m[k]) else None
  }

  /** std::map::count: keys are unique, so it is 1 for a present key and 0 otherwise. */
  function Count<K, V>(m: map<K, V>, k: K): (n: nat)
    ensures n <= 1
    ensures n > 0 <==> k in m
  {
    if k in m then 1 else 0
  }

  /**
    The value at k replaced by f of it, when k is present (the mutator of
    find_and), and whether it was present; an absent key changes nothing.
   */
  function Update<K, V>(m: map<K, V>, k: K, f: V -> V): (r: (map<K, V>, bool))
    ensures r.1 <==> k in m
    ensures r.0.Keys == m.Keys
    ensures k in m ==> r.0[k] == f(m[k])
    ensures forall j :: j in m && j != k ==> r.0[j] == m[j]
    ensures k !in m ==> r.0 == m
  {
    if k in m then (m[k := f(m[k])], true) else (m, false)
  }

  /**
    Extraction by key: the value at k moved out, and the table without k.
    The table left behind is exactly the one erase would leave.
   */
  function Extract<K, V>(m: map<K, V>, k: K): (r: (map<K, V>, Option<V>))
    ensures r.1 == Find(m, k)
    ensures r.0 == Erase(m, k)
  {
    if k in m then (m - {k}, Some(m[k])) else (m, None)
  }

  /**
    Conditional extraction: extracts the value at k when k is present and p
    holds of its value; otherwise returns nothing and leaves the table as it was.
   */
  function ExtractIf<K, V>(m: map<K, V>, k: K, p: V -> bool): (r: (map<K, V>, Option<V>))
    ensures k in m && p(m[k]) ==> r == Extract(m, k)
    ensures !(k in m && p(m[k])) ==> r.0 == m && r.1 == None
    ensures r.1.Some? ==> k in m && p(m[k]) && r.1.value == m[k]
  {
    if k in m && p(m[k]) then (m - {k}, Some(m[k])) else (m, None)
  }

  // Properties that relate several operations on the same key.

  /** Two inserts under one key leave the second value; only the first can report a new key. */
  lemma InsertTwice<K, V>(m: map<K, V>, k: K, v1: V, v2: V)
    ensures var (m1, fresh1) := InsertOrAssign(m, k, v1);
            var (m2, fresh2) := InsertOrAssign(m1, k, v2);
            && fresh1 == (k !in m) && !fresh2
            && m2 == InsertOrAssign(m, k, v2).0
            && m2[k] == v2 && |m2| == |m1|
  {
  }

  /** Extracting a key just inserted gives back the inserted value and leaves k absent. */
  lemma ExtractAfterInsert<K, V>(m: map<K, V>, k: K, v: V)
    ensures var (m1, _) := InsertOrAssign(m, k, v);
            var (m2, out) := Extract(m1, k);
            && out == Some(v) && Count(m2, k) == 0
            && m2 == Erase(m, k)
  {
  }

  /** An update through find_and is what a later Find observes. */
  lemma FindAfterUpdate<K, V>(m: map<K, V>, k: K, f: V -> V)
    requires k in m
    ensures Find(Update(m, k, f).0, k) == Some(f(m[k]))
  {
  }
}
