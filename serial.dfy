/**
  Histories of calls on one ConcurrentMap. Because every public operation holds
  the map's single lock for its whole body, whatever the threads do, the table
  goes through the calls one at a time in some total order. A history is such
  an order, written as a sequence of calls; Run gives the table after it and the
  reply of each call.
 */
module Serial {
  import opened Table
  import opened ConcurrentMaps

  /** One public operation of ConcurrentMap with its arguments. */
  datatype Call<K, !V> =
    | Insert(key: K, value: V)
    | Erase(key: K)
    | Size
    | FindCopy(key: K)
    | Contains(key: K)
    | Clear
    | FindAnd(key: K, f: V -> V)
    | Remove(key: K)
    | RemoveIf(key: K, p: V -> bool)

  /** What a call returns to its caller: a bool, a count, an optional value, or nothing. */
  datatype Reply<V> = Flag(b: bool) | Number(n: nat) | Value(o: Option<V>) | Done

  /** Whether a call may read or change the entry for key j. */
  predicate Touches<K(==), V>(c: Call<K, V>, j: K)
  {
    match c
    case Size => false
    case Clear => true
    case _ => c.key == j
  }

  /** Whether a call changes nothing. */
  predicate ReadOnly<K, V>(c: Call<K, V>)
  {
    c.Size? || c.FindCopy? || c.Contains?
  }

  /**
    Whether a reply has the return type of the call's method: bool for insert,
    contains and find_and, a count for size, an optional value for find_copy,
    remove and remove_if, and nothing for erase and clear.
   */
  predicate Fits<K, V>(c: Call<K, V>, reply: Reply<V>)
  {
    match c
    case Insert(_, _) => reply.Flag?
    case Contains(_) => reply.Flag?
    case FindAnd(_, _) => reply.Flag?
    case Size => reply.Number?
    case FindCopy(_) => reply.Value?
    case Remove(_) => reply.Value?
    case RemoveIf(_, _) => reply.Value?
    case Erase(_) => reply.Done?
    case Clear => reply.Done?
  }

  /** One atomic step: the table after call c on table m, and the call's reply. */
  function Step<K(==), V>(m: map<K, V>, c: Call<K, V>): (r: (map<K, V>, Reply<V>))
    ensures Fits(c, r.1)
  {
    match c
    case Insert(k, v) => var (m', b) := InsertOrAssign(m, k, v); (m', Flag(b))
    case Erase(k) => (Table.Erase(m, k), Done)
    case Size => (m, Number(|m|))
    case FindCopy(k) => (m, Value(Find(m, k)))
    case Contains(k) => (m, Flag(Table.Count(m, k) > 0))
    case Clear => (map[], Done)
    case FindAnd(k, f) => var (m', b) := Update(m, k, f); (m', Flag(b))
    case Remove(k) => var (m', o) := Extract(m, k); (m', Value(o))
    case RemoveIf(k, p) => var (m', o) := ExtractIf(m, k, p); (m', Value(o))
  }

  /**
    One call on a ConcurrentMap object, dispatched to its method: the object's
    new table and the reply are exactly Step of its old table.
   */
  method Apply<K(==), V>(cm: ConcurrentMap<K, V>, c: Call<K, V>) returns (reply: Reply<V>)
    modifies cm
    ensures (cm.entries, reply) == Step(old(cm.entries), c)
  {
    match c
    case Insert(k, v) =>
      var b := cm.Insert(k, v);
      reply := Flag(b);
    case Erase(k) =>
      cm.Erase(k);
      reply := Done;
    case Size =>
      var n := cm.Size();
      reply := Number(n);
    case FindCopy(k) =>
      var o := cm.FindCopy(k);
      reply := Value(o);
    case Contains(k) =>
      var b := cm.Contains(k);
      reply := Flag(b);
    case Clear =>
      cm.Clear();
      reply := Done;
    case FindAnd(k, f) =>
      var b := cm.FindAnd(k, f);
      reply := Flag(b);
    case Remove(k) =>
      var o := cm.Remove(k);
      reply := Value(o);
    case RemoveIf(k, p) =>
      var o := cm.RemoveIf(k, p);
      reply := Value(o);
  }

  /** size, find_copy and contains change nothing; clear leaves no entry. */
  lemma StepReadOnly<K, V>(m: map<K, V>, c: Call<K, V>)
    ensures ReadOnly(c) ==> Step(m, c).0 == m
    ensures c.Clear? ==> Step(m, c).0 == map[]
  {
  }

  /** A call that does not touch key j leaves j's entry, or its absence, exactly as it was. */
  lemma StepKeepsUntouched<K, V>(m: map<K, V>, c: Call<K, V>, j: K)
    requires !Touches(c, j)
    ensures j in Step(m, c).0 <==> j in m
    ensures j in m ==> Step(m, c).0[j] == m[j]
  {
  }

  /** The table after the calls of h, one after another from m, and one reply per call. */
  function Run<K(==), V>(m: map<K, V>, h: seq<Call<K, V>>): (r: (map<K, V>, seq<Reply<V>>))
    ensures |r.1| == |h|
    decreases |h|
  {
    if h == [] then (m, [])
    else
      var (m1, reply) := Step(m, h[0]);
      var (m2, replies) := Run(m1, h[1..]);
      (m2, [reply] + replies)
  }

  /** Run of a history that starts with c is Step c, then the rest. */
  lemma RunCons<K, V>(m: map<K, V>, h: seq<Call<K, V>>)
    requires h != []
    ensures Run(m, h).0 == Run(Step(m, h[0]).0, h[1..]).0
    ensures Run(m, h).1[0] == Step(m, h[0]).1
  {
  }

  /**
    Calls that never touch key j leave its entry (or its absence) exactly as it
    was, however many there are and in whatever order the lock admits them.
   */
  lemma {:induction false} UntouchedKeyKept<K, V>(m: map<K, V>, h: seq<Call<K, V>>, j: K)
    requires forall i :: 0 <= i < |h| ==> !Touches(h[i], j)
    ensures j in Run(m, h).0 <==> j in m
    ensures j in m ==> Run(m, h).0[j] == m[j]
    decreases |h|
  {
    if h != [] {
      var m1 := Step(m, h[0]).0;
      assert !Touches(h[0], j);
      StepKeepsUntouched(m, h[0], j);
      UntouchedKeyKept(m1, h[1..], j);
    }
  }

  /** Every call of h is an insert, under keys distinct from each other and absent from m. */
  predicate FreshInserts<K(==), V>(m: map<K, V>, h: seq<Call<K, V>>)
  {
    && (forall i :: 0 <= i < |h| ==> h[i].Insert? && h[i].key !in m)
    && (forall i, i' :: 0 <= i < i' < |h| && h[i].Insert? && h[i'].Insert? ==> h[i].key != h[i'].key)
  }

  /**
    No lost updates: inserts under distinct fresh keys each report a new key,
    the table grows by exactly one entry per insert, every inserted key holds
    its value, and no other key changes.
   */
  lemma {:induction false} FreshInsertsAllLand<K, V>(m: map<K, V>, h: seq<Call<K, V>>)
    requires FreshInserts(m, h)
    ensures |Run(m, h).0| == |m| + |h|
    ensures forall i :: 0 <= i < |h| ==> Run(m, h).1[i] == Flag(true)
    ensures forall i :: 0 <= i < |h| ==> h[i].key in Run(m, h).0 && Run(m, h).0[h[i].key] == h[i].value
    ensures forall j :: j in m ==> j in Run(m, h).0 && Run(m, h).0[j] == m[j]
    decreases |h|
  {
    if h != [] {
      var c := h[0];
      var m1 := Step(m, c).0;
      assert m1 == m[c.key := c.value];
      var t := h[1..];
      assert FreshInserts(m1, t) by {
        forall i | 0 <= i < |t| ensures t[i].Insert? && t[i].key !in m1 {
          assert t[i] == h[i + 1];
        }
        forall i, i' | 0 <= i < i' < |t| && t[i].Insert? && t[i'].Insert?
          ensures t[i].key != t[i'].key
        {
          assert t[i] == h[i + 1] && t[i'] == h[i' + 1];
        }
      }
      FreshInsertsAllLand(m1, t);
      RunCons(m, h);
      var r := Run(m, h);
      assert r.0 == Run(m1, t).0;
      assert r.1 == [Flag(true)] + Run(m1, t).1;
      forall i | 0 <= i < |h|
        ensures r.1[i] == Flag(true)
        ensures h[i].key in r.0 && r.0[h[i].key] == h[i].value
      {
        if i > 0 {
          assert h[i] == t[i - 1];
        } else {
          assert forall i' :: 0 <= i' < |t| ==> t[i'].key != c.key by {
            forall i' | 0 <= i' < |t| ensures t[i'].key != c.key {
              assert t[i'] == h[i' + 1];
            }
          }
          UntouchedKeyKept(m1, t, c.key);
        }
      }
    }
  }

  /**
    An insert and a remove of one key, racing: whichever the lock admits first,
    the key ends up either absent or holding the inserted value, every other
    entry is as before, and the remove returns the value it took out, if any.
   */
  lemma InsertRemoveRace<K, V>(m: map<K, V>, k: K, v: V)
    ensures var r := Run(m, [Insert(k, v), Remove(k)]);
            r.0 == Table.Erase(m, k) && r.1[1] == Value(Some(v))
    ensures var r := Run(m, [Remove(k), Insert(k, v)]);
            r.0 == m[k := v] && r.1[0] == Value(Find(m, k)) && r.1[1] == Flag(true)
  {
    var h1: seq<Call<K, V>> := [Insert(k, v), Remove(k)];
    var h2: seq<Call<K, V>> := [Remove(k), Insert(k, v)];
    RunCons(m, h1);
    RunCons(Step(m, h1[0]).0, h1[1..]);
    RunCons(m, h2);
    RunCons(Step(m, h2[0]).0, h2[1..]);
  }
}
