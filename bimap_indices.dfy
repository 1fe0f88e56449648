/**
 * The value-level account of the two indices of a bidirectional map: when they
 * agree, what one write to each does to that agreement, and what building the
 * container from a list of pairs produces.
 */
module BimapIndices {

  /** The forward index (key to value) and the inverse index (value to key) are exact transposes. */
  ghost predicate Transposed<K, V>(fwd: map<K, V>, inv: map<V, K>) {
    && (forall k :: k in fwd ==> fwd[k] in inv && inv[fwd[k]] == k)
    && (forall v :: v in inv ==> inv[v] in fwd && fwd[inv[v]] == v)
  }

  /** Two transposed indices hold the same number of entries. */
  lemma {:induction false} TransposedSameSize<K, V>(fwd: map<K, V>, inv: map<V, K>)
    ensures Transposed(fwd, inv) ==> |fwd| == |inv|
    decreases |fwd|
  {
    if Transposed(fwd, inv) && fwd != map[] {
      var k :| k in fwd;
      var v := fwd[k];
      var fwd', inv' := fwd - {k}, inv - {v};
      assert fwd'.Keys == fwd.Keys - {k};
      assert inv'.Keys == inv.Keys - {v};
      assert Transposed(fwd', inv');
      TransposedSameSize(fwd', inv');
    }
  }

  /**
   * Writing key -> value into the forward index and value -> key into the inverse index
   * keeps two transposed indices transposed exactly when the write replaces nothing that
   * disagrees: the key is new or already maps to that value, and the value is new or
   * already maps back to that key.
   */
  lemma InsertTransposedIff<K, V>(fwd: map<K, V>, inv: map<V, K>, key: K, value: V)
    requires Transposed(fwd, inv)
    ensures Transposed(fwd[key := value], inv[value := key])
        <==> (key in fwd ==> fwd[key] == value) && (value in inv ==> inv[value] == key)
  {
    var fwd', inv' := fwd[key := value], inv[value := key];
    if key in fwd && fwd[key] != value {
      // The replaced value still resolves to the key through the inverse index.
      var old_value := fwd[key];
      assert old_value in inv' && inv'[old_value] == key && fwd'[key] != old_value;
    } else if value in inv && inv[value] != key {
      // The stolen value's previous key still resolves to the value through the forward index.
      var old_key := inv[value];
      assert old_key in fwd' && fwd'[old_key] == value && inv'[value] != old_key;
    }
  }

  /**
   * Overwriting the value of a present key leaves the old value resolving to that key in
   * the inverse index: after the write the indices are no longer transposed.
   */
  lemma OverwriteLeavesStaleInverse<K, V>(fwd: map<K, V>, inv: map<V, K>, key: K, value: V)
    requires Transposed(fwd, inv)
    requires key in fwd && fwd[key] != value
    ensures fwd[key] in inv[value := key] && inv[value := key][fwd[key]] == key
    ensures !Transposed(fwd[key := value], inv[value := key])
  {
    InsertTransposedIff(fwd, inv, key, value);
  }

  /**
   * Writing a value already held by a different key leaves that other key's forward entry
   * in place while the inverse index now resolves the value to the new key.
   */
  lemma StolenValueKeepsForward<K, V>(fwd: map<K, V>, inv: map<V, K>, key: K, value: V)
    requires Transposed(fwd, inv)
    requires value in inv && inv[value] != key
    ensures inv[value] in fwd[key := value] && fwd[key := value][inv[value]] == value
    ensures inv[value := key][value] == key
    ensures !Transposed(fwd[key := value], inv[value := key])
  {
    InsertTransposedIff(fwd, inv, key, value);
  }

  /**
   * Removing a present key from the forward index and its recorded value from the inverse
   * index keeps two transposed indices transposed, each one entry smaller.
   */
  lemma ErasePreservesTransposed<K, V>(fwd: map<K, V>, inv: map<V, K>, key: K)
    requires Transposed(fwd, inv)
    requires key in fwd
    ensures Transposed(fwd - {key}, inv - {fwd[key]})
    ensures |fwd - {key}| == |fwd| - 1 && |inv - {fwd[key]}| == |inv| - 1
  {
    assert (fwd - {key}).Keys == fwd.Keys - {key};
    assert (inv - {fwd[key]}).Keys == inv.Keys - {fwd[key]};
  }

  /** The keys of a list of pairs. */
  ghost function KeysOf<K, V>(args: seq<(K, V)>): set<K> {
    set i | 0 <= i < |args| :: args[i].0
  }

  /** The values of a list of pairs. */
  ghost function ValuesOf<K, V>(args: seq<(K, V)>): set<V> {
    set i | 0 <= i < |args| :: args[i].1
  }

  /** The forward index after inserting the pairs of `args` in list order into an empty one. */
  function BuiltFwd<K, V>(args: seq<(K, V)>): (fwd: map<K, V>)
    ensures fwd.Keys == KeysOf(args)
    decreases |args|
  {
    if args == [] then map[]
    else
      var init, last := args[..|args| - 1], args[|args| - 1];
      assert KeysOf(args) == KeysOf(init) + {last.0} by {
        assert forall i :: 0 <= i < |init| ==> init[i] == args[i];
      }
      BuiltFwd(init)[last.0 := last.1]
  }

  /** The inverse index after inserting the pairs of `args` in list order into an empty one. */
  function BuiltInv<K, V>(args: seq<(K, V)>): (inv: map<V, K>)
    ensures inv.Keys == ValuesOf(args)
    decreases |args|
  {
    if args == [] then map[]
    else
      var init, last := args[..|args| - 1], args[|args| - 1];
      assert ValuesOf(args) == ValuesOf(init) + {last.1} by {
        assert forall i :: 0 <= i < |init| ==> init[i] == args[i];
      }
      BuiltInv(init)[last.1 := last.0]
  }

  /** The last pair of the list that carries a key decides that key's value. */
  lemma {:induction false} BuiltFwdLastWins<K, V>(args: seq<(K, V)>, j: nat)
    requires j < |args|
    requires forall i :: j < i < |args| ==> args[i].0 != args[j].0
    ensures args[j].0 in BuiltFwd(args) && BuiltFwd(args)[args[j].0] == args[j].1
    decreases |args|
  {
    if j < |args| - 1 {
      var init := args[..|args| - 1];
      assert init[j] == args[j];
      BuiltFwdLastWins(init, j);
    }
  }

  /** The last pair of the list that carries a value decides which key that value resolves to. */
  lemma {:induction false} BuiltInvLastWins<K, V>(args: seq<(K, V)>, j: nat)
    requires j < |args|
    requires forall i :: j < i < |args| ==> args[i].1 != args[j].1
    ensures args[j].1 in BuiltInv(args) && BuiltInv(args)[args[j].1] == args[j].0
    decreases |args|
  {
    if j < |args| - 1 {
      var init := args[..|args| - 1];
      assert init[j] == args[j];
      BuiltInvLastWins(init, j);
    }
  }

  /** No two pairs of the list share a key, and no two share a value. */
  ghost predicate OneToOne<K, V>(args: seq<(K, V)>) {
    forall i, j :: 0 <= i < j < |args| ==> args[i].0 != args[j].0 && args[i].1 != args[j].1
  }

  /**
   * A list of pairs with distinct keys and distinct values builds two transposed indices
   * holding one entry per pair.
   */
  lemma {:induction false} BuiltOneToOne<K, V>(args: seq<(K, V)>)
    requires OneToOne(args)
    ensures Transposed(BuiltFwd(args), BuiltInv(args))
    ensures |BuiltFwd(args)| == |args|
    decreases |args|
  {
    if args != [] {
      var init, last := args[..|args| - 1], args[|args| - 1];
      assert OneToOne(init);
      BuiltOneToOne(init);
      assert last.0 !in KeysOf(init);
      assert last.1 !in ValuesOf(init);
      InsertTransposedIff(BuiltFwd(init), BuiltInv(init), last.0, last.1);
    }
  }
}
