/**
 * The bidirectional map container `cmap::Bimap`: a forward index from key to value and an
 * inverse index from value to key, kept side by side and updated in place.
 */
module CMap {
  import opened Wrappers
  import opened BimapIndices

  class Bimap<K(==,!new), V(==)> {
    /** The forward index, key to value. */
    var fwd: map<K, V>
    /** The inverse index, value to key. */
    var inv: map<V, K>

    /** The two indices are transposes of each other. */
    ghost predicate Valid()
      reads this
    {
      Transposed(fwd, inv)
    }

    /** An empty container: both indices are empty. */
    constructor ()
      ensures fwd == map[] && inv == map[]
      ensures Valid() && IsEmpty() && Size() == 0
    {
      fwd, inv := map[], map[];
      new;
      Clear();
    }

    /** A container holding the pairs of `args`, inserted one by one in list order. */
    constructor FromList(args: seq<(K, V)>)
      ensures fwd == BuiltFwd(args) && inv == BuiltInv(args)
      ensures OneToOne(args) ==> Valid() && Size() == |args|
    {
      fwd, inv := map[], map[];
      new;
      var i := 0;
      while i < |args|
        invariant 0 <= i <= |args|
        invariant fwd == BuiltFwd(args[..i]) && inv == BuiltInv(args[..i])
      {
        assert args[..i + 1][..i] == args[..i];
        InsertNode(args[i]);
        i := i + 1;
      }
      assert args[..i] == args;
      if OneToOne(args) {
        BuiltOneToOne(args);
      }
    }

    /** Whether the container holds no entry. */
    function IsEmpty(): (r: bool)
      reads this
      ensures r <==> fwd == map[]
      ensures Valid() ==> (r <==> inv == map[])
    {
      |fwd| == 0
    }

    /** The number of entries; when the indices agree, both hold that many. */
    function Size(): (r: nat)
      reads this
      ensures r == 0 <==> fwd == map[]
      ensures Valid() ==> r == |inv|
    {
      TransposedSameSize(fwd, inv);
      |fwd|
    }

    /** Empties both indices. */
    method Clear()
      modifies this
      ensures fwd == map[] && inv == map[]
      ensures Valid() && IsEmpty() && Size() == 0
    {
      fwd := map[];
      inv := map[];
    }

    /**
     * Writes key -> value into the forward index and value -> key into the inverse index,
     * replacing whatever either held there and nothing else.
     */
    method Insert(key: K, value: V)
      modifies this
      ensures fwd == old(fwd)[key := value] && inv == old(inv)[value := key]
      ensures GetValue(key) == Some(value) && GetKey(value) == Some(key)
      ensures Size() == if key in old(fwd) then old(Size()) else old(Size()) + 1
      ensures old(Valid()) ==>
                (Valid() <==> (key in old(fwd) ==> old(fwd)[key] == value)
                              && (value in old(inv) ==> old(inv)[value] == key))
    {
      fwd := fwd[key := value];
      inv := inv[value := key];
      if old(Valid()) {
        InsertTransposedIff(old(fwd), old(inv), key, value);
      }
    }

    /** Inserts one (key, value) pair of an initialisation list. */
    method InsertNode(node: (K, V))
      modifies this
      ensures fwd == old(fwd)[node.0 := node.1] && inv == old(inv)[node.1 := node.0]
    {
      Insert(node.0, node.1);
    }

    /**
     * Removes `key` and the value it held from both indices; an absent key changes nothing.
     */
    method Erase(key: K)
      modifies this
      ensures key !in old(fwd) ==> fwd == old(fwd) && inv == old(inv)
      ensures key in old(fwd) ==> fwd == old(fwd) - {key} && inv == old(inv) - {old(fwd)[key]}
      ensures GetValue(key) == None
      ensures key in old(fwd) ==> GetKey(old(fwd)[key]) == None
      ensures Size() == if key in old(fwd) then old(Size()) - 1 else old(Size())
      ensures old(Valid()) ==> Valid()
    {
      if key !in fwd {
        return;
      }
      var value := fwd[key];
      inv := inv - {value};
      fwd := fwd - {key};
      if old(Valid()) {
        ErasePreservesTransposed(old(fwd), old(inv), key);
      }
    }

    /** The value held under `key`, or `None` when the key is absent. */
    function GetValue(key: K): (r: Option<V>)
      reads this
      ensures r.Some? <==> key in fwd
      ensures r.Some? ==> r.value == fwd[key]
    {
      if key in fwd then Some(fwd[key]) else None
    }

    /** The key that `value` resolves to, or `None` when the value is absent. */
    function GetKey(value: V): (r: Option<K>)
      reads this
      ensures r.Some? <==> value in inv
      ensures r.Some? ==> r.value == inv[value]
    {
      if value in inv then Some(inv[value]) else None
    }

    /** When the indices agree, looking a key up and then its value up leads back to the key. */
    lemma KeyRoundTrip(key: K)
      requires Valid() && key in fwd
      ensures GetValue(key).Some? && GetKey(GetValue(key).value) == Some(key)
    {
    }

    /** When the indices agree, looking a value up and then its key up leads back to the value. */
    lemma ValueRoundTrip(value: V)
      requires Valid() && value in inv
      ensures GetKey(value).Some? && GetValue(GetKey(value).value) == Some(value)
    {
    }
  }
}
