/** The library's usage scenario, stated over both adapters. */
module BasicUsage {
  import opened Wrappers
  import opened HashMapAdapter
  import opened BTreeMapAdapter
  import opened KeyOrder
  import opened MultiMap

  /**
   * Over the hash-backed adapter: insert "foobar" -> [3] and "baz" -> [1, 2, 3];
   * then `get_only` finds 3 under "foobar" and nothing under "baz" or an absent key.
   */
  method BasicUsage() returns (foobar: Option<nat>, baz: Option<nat>, missing: Option<nat>)
    ensures foobar == Some(3)
    ensures baz == None
    ensures missing == None
  {
    var t := new HashMap<string, seq<nat>>();
    var _ := t.Insert("foobar", [3]);
    var _ := t.Insert("baz", [1, 2, 3]);
    foobar := GetOnly(t.Get("foobar"));
    baz := GetOnly(t.Get("baz"));
    missing := GetOnly(t.Get("missing"));
  }

  /** The same scenario over the ordered adapter, whose `iter` then yields "baz" before "foobar". */
  method BasicUsageOrdered() returns (foobar: Option<nat>, baz: Option<nat>, keys: seq<string>)
    ensures foobar == Some(3)
    ensures baz == None
    ensures keys == ["baz", "foobar"]
  {
    var t := new BTreeMap<seq<nat>>();
    var _ := t.Insert("foobar", [3]);
    var _ := t.Insert("baz", [1, 2, 3]);
    foobar := GetOnly(t.Get("foobar"));
    baz := GetOnly(t.Get("baz"));
    var s := t.Iter();
    keys := seq(|s|, i requires 0 <= i < |s| => s[i].0);
    assert Less("baz", "foobar");
    assert !Less("foobar", "baz");
  }
}
