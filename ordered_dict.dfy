/** A Python `dict` used only for its keys: every value stored is `True`, so
    what matters is which keys it holds and in which order it iterates them.
    Python dicts iterate in insertion order; assigning to a key that is already
    present keeps that key's position, and `d.update(e)` assigns e's keys in
    e's order. The functions below give that key order as a value, and the
    class KeyDict is the dict itself, updated in place. */
module OrderedDict {

  /** Keys are lines of the contact file. */
  type Key = string

  /** No key occurs twice. */
  ghost predicate Distinct(s: seq<Key>) {
    forall i, j :: 0 <= i < j < |s| ==> s[i] != s[j]
  }

  /** Key order after `d[k] = True`: a present key keeps its place, a new key goes last. */
  function Inserted(keys: seq<Key>, k: Key): seq<Key> {
    if k in keys then keys else keys + [k]
  }

  /** Key order after assigning each of `xs` in turn, starting from `keys`. */
  function InsertAll(keys: seq<Key>, xs: seq<Key>): seq<Key>
    decreases |xs|
  {
    if xs == [] then keys else Inserted(InsertAll(keys, xs[..|xs| - 1]), xs[|xs| - 1])
  }

  /** Key order of a fresh dict after assigning each of `xs` in turn. */
  function Dedup(xs: seq<Key>): seq<Key> {
    InsertAll([], xs)
  }

  /** The elements of `xs` that are not in `ks`, in order, repeats kept. */
  function Without(xs: seq<Key>, ks: seq<Key>): seq<Key>
    decreases |xs|
  {
    if xs == [] then []
    else Without(xs[..|xs| - 1], ks) + (if xs[|xs| - 1] in ks then [] else [xs[|xs| - 1]])
  }

  lemma InsertAllSnoc(keys: seq<Key>, xs: seq<Key>, x: Key)
    ensures InsertAll(keys, xs + [x]) == Inserted(InsertAll(keys, xs), x)
  {
  }

  lemma WithoutSnoc(xs: seq<Key>, ks: seq<Key>, x: Key)
    ensures Without(xs + [x], ks) == Without(xs, ks) + (if x in ks then [] else [x])
  {
  }

  /** Filtering keeps exactly the elements that are not excluded. */
  lemma {:induction false} WithoutMembers(xs: seq<Key>, ks: seq<Key>)
    ensures forall x :: x in Without(xs, ks) <==> x in xs && x !in ks
    decreases |xs|
  {
    if xs != [] {
      var n := |xs| - 1;
      WithoutMembers(xs[..n], ks);
      assert xs == xs[..n] + [xs[n]];
    }
  }

  /** A dict holds exactly the keys it started with and the keys assigned to it. */
  lemma {:induction false} InsertAllMembers(keys: seq<Key>, xs: seq<Key>)
    ensures forall x :: x in InsertAll(keys, xs) <==> x in keys || x in xs
    decreases |xs|
  {
    if xs != [] {
      var n := |xs| - 1;
      InsertAllMembers(keys, xs[..n]);
      assert xs == xs[..n] + [xs[n]];
    }
  }

  /** Assigning keys never makes a dict hold a key twice. */
  lemma {:induction false} InsertAllDistinct(keys: seq<Key>, xs: seq<Key>)
    requires Distinct(keys)
    ensures Distinct(InsertAll(keys, xs))
    decreases |xs|
  {
    if xs != [] {
      InsertAllDistinct(keys, xs[..|xs| - 1]);
    }
  }

  /** Assigning keys that are all present already changes nothing. */
  lemma {:induction false} InsertAllKnown(keys: seq<Key>, xs: seq<Key>)
    requires forall x :: x in xs ==> x in keys
    ensures InsertAll(keys, xs) == keys
    decreases |xs|
  {
    if xs != [] {
      var n := |xs| - 1;
      assert xs[n] in xs;
      InsertAllKnown(keys, xs[..n]);
    }
  }

  /** Existing keys keep their positions; the new keys follow, in the order
      they were first assigned. */
  lemma {:induction false} InsertAllAppends(keys: seq<Key>, xs: seq<Key>)
    ensures InsertAll(keys, xs) == keys + Dedup(Without(xs, keys))
    decreases |xs|
  {
    if xs != [] {
      var n := |xs| - 1;
      var ys, x := xs[..n], xs[n];
      assert xs == ys + [x];
      InsertAllAppends(keys, ys);
      var w := Without(ys, keys);
      WithoutSnoc(ys, keys, x);
      InsertAllMembers([], w);
      InsertAllSnoc(keys, ys, x);
      if x !in keys {
        var d := Dedup(w);
        InsertAllSnoc([], w, x);
        assert x in keys + d <==> x in d;
        assert x !in d ==> (keys + d) + [x] == keys + (d + [x]);
      } else {
        assert Without(xs, keys) == w + [] == w;
        assert InsertAll(keys, xs) == Inserted(keys + Dedup(w), x);
        assert x in keys + Dedup(w);
      }
    }
  }

  /** A sequence without repeats is its own key order. */
  lemma {:induction false} DedupOfDistinct(xs: seq<Key>)
    requires Distinct(xs)
    ensures Dedup(xs) == xs
    decreases |xs|
  {
    if xs != [] {
      var n := |xs| - 1;
      var ys := xs[..n];
      assert Distinct(ys) by {
        forall i, j | 0 <= i < j < |ys| ensures ys[i] != ys[j] {
          assert ys[i] == xs[i] && ys[j] == xs[j];
        }
      }
      DedupOfDistinct(ys);
      assert xs[n] !in ys by {
        forall i | 0 <= i < |ys| ensures ys[i] != xs[n] {
          assert ys[i] == xs[i];
        }
      }
      assert xs == ys + [xs[n]];
    }
  }

  /** Filtering keeps a sequence free of repeats. */
  lemma {:induction false} WithoutDistinct(xs: seq<Key>, ks: seq<Key>)
    requires Distinct(xs)
    ensures Distinct(Without(xs, ks))
    decreases |xs|
  {
    if xs != [] {
      var n := |xs| - 1;
      var ys := xs[..n];
      assert Distinct(ys) by {
        forall i, j | 0 <= i < j < |ys| ensures ys[i] != ys[j] {
          assert ys[i] == xs[i] && ys[j] == xs[j];
        }
      }
      WithoutDistinct(ys, ks);
      WithoutMembers(ys, ks);
      assert xs[n] !in ys by {
        forall i | 0 <= i < |ys| ensures ys[i] != xs[n] {
          assert ys[i] == xs[i];
        }
      }
      assert xs == ys + [xs[n]];
      WithoutSnoc(ys, ks, xs[n]);
    }
  }

  /** Filtering removes nothing when no element is excluded. */
  lemma {:induction false} WithoutNothing(xs: seq<Key>, ks: seq<Key>)
    requires forall x :: x in xs ==> x !in ks
    ensures Without(xs, ks) == xs
    decreases |xs|
  {
    if xs != [] {
      var n := |xs| - 1;
      assert xs[n] in xs;
      WithoutNothing(xs[..n], ks);
      assert xs == xs[..n] + [xs[n]];
    }
  }

  /** Filtering works element by element: it preserves order across a split. */
  lemma {:induction false} WithoutAppend(a: seq<Key>, b: seq<Key>, ks: seq<Key>)
    ensures Without(a + b, ks) == Without(a, ks) + Without(b, ks)
    decreases |b|
  {
    if b == [] {
      assert a + b == a;
    } else {
      var c, y := b[..|b| - 1], b[|b| - 1];
      var tail := if y in ks then [] else [y];
      assert a + b == (a + c) + [y];
      assert b == c + [y];
      calc {
        Without(a + b, ks);
        { WithoutSnoc(a + c, ks, y); }
        Without(a + c, ks) + tail;
        { WithoutAppend(a, c, ks); }
        (Without(a, ks) + Without(c, ks)) + tail;
        Without(a, ks) + (Without(c, ks) + tail);
        { WithoutSnoc(c, ks, y); }
        Without(a, ks) + Without(b, ks);
      }
    }
  }

  /** Filtering drops every copy of an excluded element and keeps every copy of the others. */
  lemma {:induction false} WithoutCounts(xs: seq<Key>, ks: seq<Key>, x: Key)
    ensures multiset(Without(xs, ks))[x] == if x in ks then 0 else multiset(xs)[x]
    decreases |xs|
  {
    if xs != [] {
      var n := |xs| - 1;
      WithoutCounts(xs[..n], ks, x);
      assert xs == xs[..n] + [xs[n]];
    }
  }

  /** Key order is first-seen order: if the later of two keys has been seen
      within some prefix of the assignments, so has the earlier. */
  lemma {:induction false} DedupFirstSeenOrder(xs: seq<Key>)
    ensures forall i, j, k :: 0 <= i < j < |Dedup(xs)| && 0 <= k <= |xs| && Dedup(xs)[j] in xs[..k] ==>
      Dedup(xs)[i] in xs[..k]
    decreases |xs|
  {
    if xs != [] {
      var n := |xs| - 1;
      var ys, x := xs[..n], xs[n];
      assert xs == ys + [x];
      DedupFirstSeenOrder(ys);
      InsertAllMembers([], ys);
      InsertAllMembers([], xs);
      var d, e := Dedup(ys), Dedup(xs);
      assert e == Inserted(d, x);
      forall i, j, k | 0 <= i < j < |e| && 0 <= k <= |xs| && e[j] in xs[..k]
        ensures e[i] in xs[..k]
      {
        if k == |xs| {
          assert xs[..k] == xs;
          assert e[i] in e;
        } else {
          assert xs[..k] == ys[..k];
          if j < |d| {
            assert e[i] == d[i] && e[j] == d[j];
          }
        }
      }
    }
  }

  /** The dict itself: `keys` is its iteration order and `present` the hash
      index that lets an assignment find an existing key without a scan. */
  class KeyDict {
    var keys: seq<Key>
    var present: set<Key>

    ghost predicate Valid()
      reads this
    {
      Distinct(keys) && forall k :: k in present <==> k in keys
    }

    /** `dict()` */
    constructor ()
      ensures Valid() && keys == []
    {
      keys := [];
      present := {};
    }

    /** `d[k] = True` */
    method Set(k: Key)
      requires Valid()
      modifies this
      ensures Valid()
      ensures keys == Inserted(old(keys), k)
    {
      if k !in present {
        keys := keys + [k];
        present := present + {k};
      }
    }

    /** `d.update(other)`: assigns other's keys in other's order. The keys are
        read before the first assignment, so `d.update(d)` is covered too. */
    method Update(other: KeyDict)
      requires Valid()
      modifies this
      ensures Valid()
      ensures keys == InsertAll(old(keys), old(other.keys))
    {
      var src := other.keys;
      var i := 0;
      while i < |src|
        invariant 0 <= i <= |src|
        invariant Valid()
        invariant keys == InsertAll(old(keys), src[..i])
      {
        InsertAllSnoc(old(keys), src[..i], src[i]);
        assert src[..i + 1] == src[..i] + [src[i]];
        Set(src[i]);
        i := i + 1;
      }
      assert src[..i] == src;
    }
  }
}
