/**
  The ORM's identity map: a query of whole objects maps every row to the object of
  its primary key, so a row whose key is already loaded adds no new object, and
  that object keeps the values of the first row that carried the key.
*/
module IdentityMap {
  import opened Sorting
  import opened SeqFacts

  predicate DistinctKeys<T>(s: seq<T>, key: T -> int) {
    forall i, j :: 0 <= i < j < |s| ==> key(s[i]) != key(s[j])
  }

  function KeysOf<T(==)>(s: seq<T>, key: T -> int): set<int> {
    set x | x in s :: key(x)
  }

  /** Position `i` holds the first element of `s` with its key. */
  predicate FirstWithKey<T>(s: seq<T>, key: T -> int, i: int) {
    0 <= i < |s| && forall j :: 0 <= j < i ==> key(s[j]) != key(s[i])
  }

  /** `x` sits in `s` at a position where its key occurs first. */
  ghost predicate IsFirstWithKey<T>(s: seq<T>, key: T -> int, x: T) {
    exists i :: FirstWithKey(s, key, i) && s[i] == x
  }

  /** `r` holds, in the order of their positions in `s`, exactly the elements of `s`
      at the positions where their keys occur first. */
  ghost predicate FirstPerKeyInOrder<T>(s: seq<T>, key: T -> int, r: seq<T>) {
    && (forall k :: 0 <= k < |r| ==> IsFirstWithKey(s, key, r[k]))
    && (forall i :: FirstWithKey(s, key, i) ==> s[i] in r)
    && (forall k, k', i, i' ::
          (0 <= k < k' < |r| && FirstWithKey(s, key, i) && s[i] == r[k] &&
           FirstWithKey(s, key, i') && s[i'] == r[k']) ==> i < i')
  }

  /** One element per key, the first that carries it, in the order of `s`. */
  function KeepFirstPerKey<T(==)>(s: seq<T>, key: T -> int): (r: seq<T>)
    ensures multiset(r) <= multiset(s)
    ensures KeysOf(r, key) == KeysOf(s, key)
    ensures DistinctKeys(r, key)
  {
    if s == [] then []
    else
      var init, last := s[..|s| - 1], s[|s| - 1];
      var kept := KeepFirstPerKey(init, key);
      assert s == init + [last];
      assert KeysOf(s, key) == KeysOf(init, key) + {key(last)};
      if key(last) in KeysOf(kept, key) then kept
      else
        assert KeysOf(kept + [last], key) == KeysOf(kept, key) + {key(last)};
        kept + [last]
  }

  /** A first position in the front of `s` is a first position in `s`. */
  lemma FirstInFront<T>(s: seq<T>, key: T -> int, i: nat)
    requires s != [] && FirstWithKey(s[..|s| - 1], key, i)
    ensures FirstWithKey(s, key, i) && s[i] == s[..|s| - 1][i]
  {
    assert forall j :: 0 <= j < i ==> s[j] == s[..|s| - 1][j];
  }

  /** A first position in `s` other than the last is a first position in its front. */
  lemma FirstOfFront<T>(s: seq<T>, key: T -> int, i: nat)
    requires FirstWithKey(s, key, i) && i < |s| - 1
    ensures FirstWithKey(s[..|s| - 1], key, i) && s[..|s| - 1][i] == s[i]
  {
    assert forall j :: 0 <= j < i ==> s[j] == s[..|s| - 1][j];
  }

  /** Every kept element sits in `s` at a position where its key occurs first. */
  lemma {:induction false} KeptAreFirst<T>(s: seq<T>, key: T -> int)
    ensures forall k :: 0 <= k < |KeepFirstPerKey(s, key)| ==>
      IsFirstWithKey(s, key, KeepFirstPerKey(s, key)[k])
  {
    if s != [] {
      var init, last := s[..|s| - 1], s[|s| - 1];
      KeptAreFirst(init, key);
      var kept, r := KeepFirstPerKey(init, key), KeepFirstPerKey(s, key);
      assert r == kept || (r == kept + [last] && key(last) !in KeysOf(init, key));
      forall k | 0 <= k < |KeepFirstPerKey(s, key)|
        ensures IsFirstWithKey(s, key, KeepFirstPerKey(s, key)[k])
      {
        if k < |kept| {
          assert IsFirstWithKey(init, key, kept[k]);
          var i :| 0 <= i < |init| && FirstWithKey(init, key, i) && init[i] == kept[k];
          FirstInFront(s, key, i);
          assert r[k] == kept[k];
          assert FirstWithKey(s, key, i) && s[i] == r[k];
        } else {
          forall j | 0 <= j < |s| - 1
            ensures key(s[j]) != key(last)
          {
            assert s[j] == init[j] && init[j] in init;
          }
          assert r == kept + [last] && r[k] == last;
          assert FirstWithKey(s, key, |s| - 1) && s[|s| - 1] == r[k];
        }
      }
    } else {
      assert KeepFirstPerKey(s, key) == [];
    }
  }

  /** The element at every first position of a key is kept. */
  lemma {:induction false} FirstsAreKept<T>(s: seq<T>, key: T -> int)
    ensures forall i :: FirstWithKey(s, key, i) ==> s[i] in KeepFirstPerKey(s, key)
  {
    if s != [] {
      var init, last := s[..|s| - 1], s[|s| - 1];
      FirstsAreKept(init, key);
      var kept, r := KeepFirstPerKey(init, key), KeepFirstPerKey(s, key);
      assert r == kept || r == kept + [last];
      assert r == kept ==> key(last) in KeysOf(init, key);
      forall i | FirstWithKey(s, key, i)
        ensures s[i] in r
      {
        if i < |init| {
          FirstOfFront(s, key, i);
        } else {
          forall y | y in init
            ensures key(y) != key(last)
          {
            var j :| 0 <= j < |init| && init[j] == y;
            assert s[j] == y;
          }
        }
      }
    }
  }

  /** The kept elements keep the order of their first positions in `s`. */
  lemma {:induction false} KeepFirstInOrder<T>(s: seq<T>, key: T -> int, k: nat, k': nat, i: nat, i': nat)
    requires k < k' < |KeepFirstPerKey(s, key)|
    requires FirstWithKey(s, key, i) && s[i] == KeepFirstPerKey(s, key)[k]
    requires FirstWithKey(s, key, i') && s[i'] == KeepFirstPerKey(s, key)[k']
    ensures i < i'
  {
    var init, last := s[..|s| - 1], s[|s| - 1];
    InitLast(s);
    var kept, r := KeepFirstPerKey(init, key), KeepFirstPerKey(s, key);
    assert r == kept || (r == kept + [last] && key(last) !in KeysOf(init, key));
    assert key(r[k]) != key(r[k']);
    assert r[k] == kept[k] && kept[k] in multiset(init);
    var j :| 0 <= j < |init| && init[j] == r[k];
    assert s[j] == s[i];
    if k' < |kept| {
      assert kept[k'] in multiset(init);
      var j' :| 0 <= j' < |init| && init[j'] == r[k'];
      assert s[j'] == s[i'];
      FirstOfFront(s, key, i);
      FirstOfFront(s, key, i');
      KeepFirstInOrder(init, key, k, k', i, i');
    } else {
      forall m | 0 <= m < |init|
        ensures init[m] != last
      {
        assert init[m] in init;
      }
      assert s[i'] == last;
    }
  }

  /** The kept elements are the first of each key, in their order in `s`. */
  lemma KeepFirstIsFirst<T>(s: seq<T>, key: T -> int)
    ensures FirstPerKeyInOrder(s, key, KeepFirstPerKey(s, key))
  {
    KeptAreFirst(s, key);
    FirstsAreKept(s, key);
    var r := KeepFirstPerKey(s, key);
    forall k, k', i, i' |
      0 <= k < k' < |r| && FirstWithKey(s, key, i) && s[i] == r[k] &&
      FirstWithKey(s, key, i') && s[i'] == r[k']
      ensures i < i'
    {
      KeepFirstInOrder(s, key, k, k', i, i');
    }
  }

  /** Where no two elements share a key, nothing is dropped. */
  lemma {:induction false} KeepFirstDistinct<T>(s: seq<T>, key: T -> int)
    requires DistinctKeys(s, key)
    ensures KeepFirstPerKey(s, key) == s
  {
    if s != [] {
      var init, last := s[..|s| - 1], s[|s| - 1];
      assert DistinctKeys(init, key) by {
        forall i, j | 0 <= i < j < |init|
          ensures key(init[i]) != key(init[j])
        {
          assert init[i] == s[i] && init[j] == s[j];
        }
      }
      KeepFirstDistinct(init, key);
      assert key(last) !in KeysOf(init, key) by {
        forall y | y in init
          ensures key(y) != key(last)
        {
          var i :| 0 <= i < |init| && init[i] == y;
          assert s[i] == y;
        }
      }
      InitLast(s);
      KeepFirstAppend(init, last, key);
    }
  }

  /** An element with a key not yet kept is appended. */
  lemma KeepFirstAppend<T>(init: seq<T>, last: T, key: T -> int)
    requires key(last) !in KeysOf(KeepFirstPerKey(init, key), key)
    ensures KeepFirstPerKey(init + [last], key) == KeepFirstPerKey(init, key) + [last]
  {
    var s := init + [last];
    assert s[..|s| - 1] == init && s[|s| - 1] == last;
  }

  /** Dropping elements keeps the order of the rest. */
  lemma {:induction false} KeepFirstSorted<T>(s: seq<T>, key: T -> int, order: T -> int)
    requires SortedBy(s, order)
    ensures SortedBy(KeepFirstPerKey(s, key), order)
  {
    if s != [] {
      var init, last := s[..|s| - 1], s[|s| - 1];
      KeepFirstSorted(init, key, order);
      var kept := KeepFirstPerKey(init, key);
      assert KeepFirstPerKey(s, key) == kept || KeepFirstPerKey(s, key) == kept + [last];
      forall y | y in kept
        ensures order(y) <= order(last)
      {
        assert y in multiset(init);
        var i :| 0 <= i < |init| && init[i] == y;
      }
      SortedAppend(kept, last, order);
    }
  }

  /** Of two elements with one key, the first is kept. */
  lemma KeepFirstPair<T>(x: T, y: T, key: T -> int)
    requires key(x) == key(y)
    ensures KeepFirstPerKey([x, y], key) == [x]
  {
    assert [x, y][..1] == [x];
    assert KeepFirstPerKey([x], key) == [x];
  }
}
