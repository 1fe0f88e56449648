/**
 * Key-ordered traversal of the forward index: the order in which the container's
 * iterators visit its entries, stated as a sequence of keys.
 */
module Traversal {

  /** `a`, `b`, `c` come in that order under `lt`. */
  ghost predicate Chain<T>(lt: (T, T) -> bool, a: T, b: T, c: T) {
    lt(a, b) && lt(b, c)
  }

  /** `a` and `b` are ordered one way or the other under `lt`. */
  ghost predicate Compared<T>(lt: (T, T) -> bool, a: T, b: T) {
    lt(a, b) || lt(b, a)
  }

  /**
   * `lt` is a strict total order, the role the key type's comparison plays in the index.
   * Transitivity and totality are triggered only by an explicit `Chain` or `Compared`,
   * which keeps them out of proofs that do not need them.
   */
  ghost predicate StrictTotalOrder<T(!new)>(lt: (T, T) -> bool) {
    && (forall a :: !lt(a, a))
    && (forall a, b, c {:trigger Chain(lt, a, b, c)} :: Chain(lt, a, b, c) ==> lt(a, c))
    && (forall a, b {:trigger Compared(lt, a, b)} :: a != b ==> Compared(lt, a, b))
  }

  /** Every element of `s` comes before every later element. */
  ghost predicate StrictlyAscending<T>(s: seq<T>, lt: (T, T) -> bool) {
    forall i, j :: 0 <= i < j < |s| ==> lt(s[i], s[j])
  }

  /** `m` is the least element of `s`. */
  ghost predicate IsLeast<T>(m: T, s: set<T>, lt: (T, T) -> bool) {
    m in s && forall x :: x in s && x != m ==> lt(m, x)
  }

  /** A non-empty finite set has a least element. */
  lemma {:induction false} LeastExists<T(!new)>(s: set<T>, lt: (T, T) -> bool)
    requires StrictTotalOrder(lt)
    requires s != {}
    ensures exists m :: IsLeast(m, s, lt)
    decreases |s|
  {
    var y :| y in s;
    if s != {y} {
      LeastExists(s - {y}, lt);
      var m :| IsLeast(m, s - {y}, lt);
      if lt(y, m) {
        forall x | x in s && x != y ensures lt(y, x) {
          if x != m {
            assert Chain(lt, y, m, x);
          }
        }
        assert IsLeast(y, s, lt);
      } else {
        assert Compared(lt, y, m);
        assert IsLeast(m, s, lt);
      }
    } else {
      assert IsLeast(y, s, lt);
    }
  }

  /** The least element of a set is unique. */
  lemma LeastUnique<T(!new)>(m: T, m': T, s: set<T>, lt: (T, T) -> bool)
    requires StrictTotalOrder(lt)
    requires IsLeast(m, s, lt) && IsLeast(m', s, lt)
    ensures m == m'
  {
    assert Chain(lt, m, m', m) ==> lt(m, m);
  }

  /** The elements of `s` in ascending order, each once. */
  ghost function Ascending<T(!new)>(s: set<T>, lt: (T, T) -> bool): (r: seq<T>)
    requires StrictTotalOrder(lt)
    ensures |r| == |s|
    ensures forall i :: 0 <= i < |r| ==> r[i] in s
    ensures forall x :: x in s ==> x in r
    ensures StrictlyAscending(r, lt)
    decreases |s|
  {
    if s == {} then []
    else
      LeastExists(s, lt);
      var m :| IsLeast(m, s, lt);
      [m] + Ascending(s - {m}, lt)
  }

  /**
   * A strictly ascending sequence holding exactly the elements of `s` is the ascending
   * order of `s`: the traversal order is determined by the keys alone.
   */
  lemma {:induction false} AscendingUnique<T(!new)>(s: set<T>, lt: (T, T) -> bool, r: seq<T>)
    requires StrictTotalOrder(lt)
    requires StrictlyAscending(r, lt)
    requires s == set x | x in r
    ensures r == Ascending(s, lt)
    decreases |r|
  {
    if r != [] {
      HeadIsLeast(s, lt, r);
      TailListsTheRest(s, lt, r);
      var rest := r[1..];
      AscendingUnique(s - {r[0]}, lt, rest);
      AscendingHead(s, lt, r[0]);
      calc {
        r;
        [r[0]] + rest;
        [r[0]] + Ascending(s - {r[0]}, lt);
        Ascending(s, lt);
      }
    }
  }

  /** The first element of a strictly ascending listing of `s` is the least element of `s`. */
  lemma HeadIsLeast<T(!new)>(s: set<T>, lt: (T, T) -> bool, r: seq<T>)
    requires StrictlyAscending(r, lt)
    requires s == set x | x in r
    requires r != []
    ensures IsLeast(r[0], s, lt)
  {
    forall x | x in s && x != r[0] ensures lt(r[0], x) {
      var j :| 0 <= j < |r| && r[j] == x;
    }
  }

  /** Dropping the first element of a strictly ascending listing of `s` lists the rest of `s`, still ascending. */
  lemma TailListsTheRest<T(!new)>(s: set<T>, lt: (T, T) -> bool, r: seq<T>)
    requires StrictTotalOrder(lt)
    requires StrictlyAscending(r, lt)
    requires s == set x | x in r
    requires r != []
    ensures s - {r[0]} == set x | x in r[1..]
    ensures StrictlyAscending(r[1..], lt)
  {
    var rest := r[1..];
    forall x | x in rest ensures x != r[0] {
      var j :| 0 <= j < |rest| && rest[j] == x;
      assert lt(r[0], r[j + 1]);
    }
    assert r == [r[0]] + rest;
    forall i, j | 0 <= i < j < |rest| ensures lt(rest[i], rest[j]) {
      assert rest[i] == r[i + 1] && rest[j] == r[j + 1];
    }
  }

  /** The ascending order of a set starts with its least element. */
  lemma AscendingHead<T(!new)>(s: set<T>, lt: (T, T) -> bool, m: T)
    requires StrictTotalOrder(lt)
    requires IsLeast(m, s, lt)
    ensures Ascending(s, lt) == [m] + Ascending(s - {m}, lt)
  {
    var m' :| IsLeast(m', s, lt) && Ascending(s, lt) == [m'] + Ascending(s - {m'}, lt);
    LeastUnique(m, m', s, lt);
  }

  /**
   * The entries of `m` in the order a forward traversal visits them (from `begin` to `end`):
   * ascending by key, each entry once.
   */
  ghost function InOrder<K(!new), V>(m: map<K, V>, lt: (K, K) -> bool): (r: seq<(K, V)>)
    requires StrictTotalOrder(lt)
    ensures |r| == |m|
    ensures forall i :: 0 <= i < |r| ==> r[i].0 == Ascending(m.Keys, lt)[i]
    ensures forall i :: 0 <= i < |r| ==> r[i].0 in m && r[i].1 == m[r[i].0]
    ensures forall k :: k in m ==> (k, m[k]) in r
    ensures forall i, j :: 0 <= i < j < |r| ==> lt(r[i].0, r[j].0)
    ensures r == [] <==> m == map[]
  {
    var keys := Ascending(m.Keys, lt);
    var r := seq(|keys|, i requires 0 <= i < |keys| => (keys[i], m[keys[i]]));
    assert forall k :: k in m ==> (k, m[k]) in r by {
      forall k | k in m ensures (k, m[k]) in r {
        var i :| 0 <= i < |keys| && keys[i] == k;
        assert r[i] == (k, m[k]);
      }
    }
    r
  }

  /** `s` listed from its last element to its first. */
  function Backwards<T>(s: seq<T>): (r: seq<T>)
    ensures |r| == |s|
    ensures forall i :: 0 <= i < |r| ==> r[i] == s[|s| - 1 - i]
    decreases |s|
  {
    if s == [] then [] else [s[|s| - 1]] + Backwards(s[..|s| - 1])
  }

  /**
   * The entries of `m` in the order a reverse traversal visits them (from `rbegin` to
   * `rend`): the forward order backwards, so it starts at the last forward entry and
   * visits the keys in strictly descending order; `rbegin` equals `rend` exactly when
   * the map is empty. That it holds every entry is `InReverseOrderHoldsAll`.
   */
  ghost function InReverseOrder<K(!new), V>(m: map<K, V>, lt: (K, K) -> bool): (r: seq<(K, V)>)
    requires StrictTotalOrder(lt)
    ensures |r| == |m|
    ensures forall i :: 0 <= i < |r| ==> r[i] == InOrder(m, lt)[|m| - 1 - i]
    ensures forall i, j :: 0 <= i < j < |r| ==> lt(r[j].0, r[i].0)
    ensures r == [] <==> m == map[]
  {
    var up := InOrder(m, lt);
    var r := Backwards(up);
    ReversedDescends(m, up, r, lt);
    r
  }

  /**
   * The forward order read backwards has its keys descending. Stating it about
   * `InOrder(m, lt)` rather than calling `BackwardsDescends` from `InReverseOrder`
   * directly keeps that function's proof within the resource limit.
   */
  lemma ReversedDescends<K(!new), V>(m: map<K, V>, up: seq<(K, V)>, down: seq<(K, V)>, lt: (K, K) -> bool)
    requires StrictTotalOrder(lt)
    requires up == InOrder(m, lt) && down == Backwards(up)
    ensures forall i, j :: 0 <= i < j < |down| ==> lt(down[j].0, down[i].0)
  {
    BackwardsDescends(up, down, lt);
  }

  /** A reverse traversal visits every entry of the map. */
  lemma InReverseOrderHoldsAll<K(!new), V>(m: map<K, V>, lt: (K, K) -> bool)
    requires StrictTotalOrder(lt)
    ensures forall k :: k in m ==> (k, m[k]) in InReverseOrder(m, lt)
  {
    var up, down := InOrder(m, lt), InReverseOrder(m, lt);
    BackwardsHoldsAll(up, down);
    forall k | k in m ensures (k, m[k]) in down {
      assert (k, m[k]) in up;
    }
  }

  /** Listing a sequence backwards keeps every element. */
  lemma BackwardsHoldsAll<T>(up: seq<T>, down: seq<T>)
    requires |down| == |up|
    requires forall i :: 0 <= i < |down| ==> down[i] == up[|up| - 1 - i]
    ensures forall x :: x in up ==> x in down
  {
    forall x | x in up ensures x in down {
      var j :| 0 <= j < |up| && up[j] == x;
      assert down[|up| - 1 - j] == x;
    }
  }

  /** Listing a sequence ascending by key backwards gives one descending by key. */
  lemma BackwardsDescends<K, V>(up: seq<(K, V)>, down: seq<(K, V)>, lt: (K, K) -> bool)
    requires |down| == |up|
    requires forall i :: 0 <= i < |down| ==> down[i] == up[|up| - 1 - i]
    requires forall i, j :: 0 <= i < j < |up| ==> lt(up[i].0, up[j].0)
    ensures forall i, j :: 0 <= i < j < |down| ==> lt(down[j].0, down[i].0)
  {
    forall i, j | 0 <= i < j < |down| ensures lt(down[j].0, down[i].0) {
      assert down[i] == up[|up| - 1 - i] && down[j] == up[|up| - 1 - j];
    }
  }
}
