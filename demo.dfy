/**
  The use_int driver: a ConcurrentMap<int, int> taken through inserts, a
  mutation through find_and, two observing callbacks and a conditional remove.
  What the driver prints is returned here instead.
 */
module Demo {
  import opened Table
  import opened ConcurrentMaps

  method UseInt() returns (size: int, seen3: Option<int>, seen4: Option<int>,
                           before: bool, removed: Option<int>, after: bool)
    ensures size == 3
    ensures seen3 == Some(4) && seen4 == Some(6)
    ensures before && removed == Some(6) && !after
  {
    var m := new ConcurrentMap<int, int>();
    var thing := 4;
    var isNew := m.Insert(3, thing);
    assert isNew;
    // The map holds its own copy: changing the caller's variable changes no entry.
    thing := 10;
    isNew := m.Insert(4, 4);
    isNew := m.Insert(5, 4);
    size := m.Size();
    var found := m.FindAnd(4, (x: int) => 6);
    assert found;
    // The printing callbacks leave the value as it is; what they print is the stored value.
    found := m.FindAnd(3, (x: int) => x);
    seen3 := m.FindCopy(3);
    found := m.FindAnd(4, (x: int) => x);
    seen4 := m.FindCopy(4);
    before := m.Contains(4);
    removed := m.RemoveIf(4, (v: int) => v < 10);
    after := m.Contains(4);
  }
}
