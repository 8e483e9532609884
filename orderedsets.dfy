/** JavaScript `Set`s as the crawler uses them: distinct elements kept in
    insertion order, spread back into an array with `[...set]`. */
module OrderedSets {

  predicate Distinct<T(==,!new)>(s: seq<T>) {
    forall i, j :: 0 <= i < j < |s| ==> s[i] != s[j]
  }

  /** `set.add(x)`: appended unless already present. */
  function Add<T(==,!new)>(s: seq<T>, x: T): (r: seq<T>)
    ensures Distinct(s) ==> Distinct(r)
    ensures forall y :: y in r <==> y in s || y == x
    ensures x in r && |s| <= |r| && r[..|s|] == s
  {
    if x in s then s else s + [x]
  }

  /** Adding every element of `xs`, in order. */
  function AddAll<T(==,!new)>(s: seq<T>, xs: seq<T>): (r: seq<T>)
    ensures Distinct(s) ==> Distinct(r)
    ensures forall y :: y in r <==> y in s || y in xs
    ensures |s| <= |r| && r[..|s|] == s
    decreases |xs|
  {
    if xs == [] then s
    else
      var init := xs[..|xs| - 1];
      assert xs == init + [xs[|xs| - 1]];
      var r := AddAll(s, init);
      assert Add(r, xs[|xs| - 1])[..|s|] == r[..|s|];
      Add(r, xs[|xs| - 1])
  }

  /** Adding a list and then one more element is adding the longer list. */
  lemma AddAllSnoc<T(!new)>(s: seq<T>, xs: seq<T>, x: T)
    ensures AddAll(s, xs + [x]) == Add(AddAll(s, xs), x)
  {
    assert (xs + [x])[..|xs|] == xs;
  }

  /** Adding a list to a set that already holds all of it changes nothing. */
  lemma {:induction false} AddAllPresent<T(!new)>(s: seq<T>, xs: seq<T>)
    requires forall y :: y in xs ==> y in s
    ensures AddAll(s, xs) == s
    decreases |xs|
  {
    if xs != [] {
      AddAllPresent(s, xs[..|xs| - 1]);
    }
  }

  /** The set built by adding each list in turn: `new Set()` fed list by list. */
  function Union<T(==,!new)>(lists: seq<seq<T>>): (r: seq<T>)
    ensures Distinct(r)
    decreases |lists|
  {
    if lists == [] then []
    else AddAll(Union(lists[..|lists| - 1]), lists[|lists| - 1])
  }

  /** An element of the union comes from one of the lists. */
  lemma {:induction false} UnionSource<T(!new)>(lists: seq<seq<T>>, x: T) returns (k: nat)
    requires x in Union(lists)
    ensures k < |lists| && x in lists[k]
    decreases |lists|
  {
    var init := lists[..|lists| - 1];
    if x in lists[|lists| - 1] {
      k := |lists| - 1;
    } else {
      k := UnionSource(init, x);
      assert init[k] == lists[k];
    }
  }

  /** Every element of every list is in the union. */
  lemma {:induction false} UnionComplete<T(!new)>(lists: seq<seq<T>>, k: nat, x: T)
    requires k < |lists| && x in lists[k]
    ensures x in Union(lists)
    decreases |lists|
  {
    var init := lists[..|lists| - 1];
    if k < |lists| - 1 {
      assert init[k] == lists[k];
      UnionComplete(init, k, x);
    }
  }
}
