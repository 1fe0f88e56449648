/**
 * Client code that exercises the container through its contracts alone: the number-to-name
 * fixture of the unit tests and further usage cases (overwriting a key, stealing a value,
 * erasing a key twice, traversal order).
 */
module BimapScenarios {
  import opened Wrappers
  import opened BimapIndices
  import opened Traversal
  import opened CMap

  /** The initialisation list of the fixture. */
  function FixtureList(): seq<(int, string)> {
    [(1, "ONE"), (2, "TWO"), (3, "THREE")]
  }

  /** The fixture's list builds exactly three forward and three inverse entries, which agree. */
  lemma FixtureBuilt()
    ensures BuiltFwd(FixtureList()) == map[1 := "ONE", 2 := "TWO", 3 := "THREE"]
    ensures BuiltInv(FixtureList()) == map["ONE" := 1, "TWO" := 2, "THREE" := 3]
    ensures Transposed(BuiltFwd(FixtureList()), BuiltInv(FixtureList()))
  {
    var args := FixtureList();
    assert args[..2] == [(1, "ONE"), (2, "TWO")];
    assert args[..2][..1] == [(1, "ONE")];
  }

  /** The fixture {1: "ONE", 2: "TWO", 3: "THREE"} of the unit tests. */
  method NumberToString() returns (m: Bimap<int, string>)
    ensures fresh(m)
    ensures m.fwd == map[1 := "ONE", 2 := "TWO", 3 := "THREE"]
    ensures m.inv == map["ONE" := 1, "TWO" := 2, "THREE" := 3]
    ensures m.Valid() && m.Size() == 3
  {
    m := new Bimap.FromList(FixtureList());
    FixtureBuilt();
  }

  /** Lookups on the fixture succeed in both directions. */
  method SearchByValidKeys() {
    var m := NumberToString();
    assert !m.IsEmpty() && m.Size() == 3;
    assert m.GetValue(1) == Some("ONE") && m.GetValue(2) == Some("TWO") && m.GetValue(3) == Some("THREE");
    assert m.GetKey("TWO") == Some(2);
  }

  /** Adding 4 -> "FOUR" grows the fixture; erasing 3 shrinks it, and erasing 3 again does nothing. */
  method InsertNewItem() {
    var m := NumberToString();
    assert !m.IsEmpty();
    m.Insert(4, "FOUR");
    assert !m.IsEmpty() && m.Size() == 4;
    assert m.GetValue(4) == Some("FOUR") && m.GetKey("FOUR") == Some(4);
    assert m.Valid();
    m.Erase(3);
    assert m.Size() == 3 && m.GetValue(3) == None && m.GetKey("THREE") == None;
    m.Erase(3);
    assert m.Size() == 3;
  }

  /** Clearing the fixture leaves it empty. */
  method ClearResets() {
    var m := NumberToString();
    m.Clear();
    assert m.IsEmpty() && m.Size() == 0;
  }

  /** Overwriting key 1 leaves "ONE" resolving to 1 in the inverse index. */
  method OverwriteKey() {
    var m := NumberToString();
    m.Insert(1, "UN");
    assert m.GetValue(1) == Some("UN") && m.GetKey("UN") == Some(1);
    assert m.GetKey("ONE") == Some(1);
    assert m.Size() == 3 && !m.Valid();
  }

  /** Writing "ONE" under key 4 steals the value: 1 still maps to "ONE", but "ONE" resolves to 4. */
  method StealValue() {
    var m := NumberToString();
    m.Insert(4, "ONE");
    assert m.GetValue(1) == Some("ONE") && m.GetValue(4) == Some("ONE");
    assert m.GetKey("ONE") == Some(4);
    assert m.Size() == 4 && !m.Valid();
  }

  /** The natural order on integer keys. */
  function IntLess(a: int, b: int): bool {
    a < b
  }

  /** The keys 1, 2, 3 in ascending order. */
  lemma FixtureKeysAscending()
    ensures StrictTotalOrder(IntLess)
    ensures Ascending({1, 2, 3}, IntLess) == [1, 2, 3]
  {
    var keys := [1, 2, 3];
    assert {1, 2, 3} == set x | x in keys;
    AscendingUnique({1, 2, 3}, IntLess, keys);
  }

  /** A map whose keys are 1, 2 and 3 is traversed forward as 1, 2, 3, each key with its value. */
  lemma FixtureForward(m: map<int, string>)
    requires m.Keys == {1, 2, 3}
    ensures StrictTotalOrder(IntLess)
    ensures InOrder(m, IntLess) == [(1, m[1]), (2, m[2]), (3, m[3])]
  {
    FixtureKeysAscending();
    var up := InOrder(m, IntLess);
    assert |up| == 3;
    assert up[0] == (1, m[1]);
    assert up[1] == (2, m[2]);
    assert up[2] == (3, m[3]);
  }

  /** A map whose keys are 1, 2 and 3 is traversed in reverse as 3, 2, 1, each key with its value. */
  lemma FixtureReverse(m: map<int, string>)
    requires m.Keys == {1, 2, 3}
    ensures StrictTotalOrder(IntLess)
    ensures InReverseOrder(m, IntLess) == [(3, m[3]), (2, m[2]), (1, m[1])]
  {
    FixtureForward(m);
    ThreeBackwards(InOrder(m, IntLess), InReverseOrder(m, IntLess));
  }

  /** A three-element listing read backwards, spelled out. */
  lemma ThreeBackwards<T>(up: seq<T>, down: seq<T>)
    requires |up| == |down| == 3
    requires forall i :: 0 <= i < |down| ==> down[i] == up[|up| - 1 - i]
    ensures down == [up[2], up[1], up[0]]
  {
    assert down[0] == up[2] && down[1] == up[1] && down[2] == up[0];
  }

  /** Forward traversal of the fixture yields its pairs by ascending key, reverse traversal backwards. */
  method TraverseFixture() {
    var m := NumberToString();
    FixtureForward(m.fwd);
    FixtureReverse(m.fwd);
    assert InOrder(m.fwd, IntLess) == [(1, "ONE"), (2, "TWO"), (3, "THREE")];
    assert InReverseOrder(m.fwd, IntLess) == [(3, "THREE"), (2, "TWO"), (1, "ONE")];
  }
}
