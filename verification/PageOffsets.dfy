/** The offsets of a page's entries. */
module PageOffsets {

  /** The offsets 1..n-1, each exactly once, in some order: what a sort of the entries may leave. */
  ghost predicate Arranged(order: seq<nat>, n: nat) {
    && (forall o: nat :: o in order <==> 1 <= o < n)
    && (forall j, k :: 0 <= j < k < |order| ==> order[j] != order[k])
  }

  /** Each offset goes to exactly one of two nonempty halves. */
  ghost predicate Splits(left: seq<nat>, right: seq<nat>, n: nat) {
    left != [] && right != [] && Arranged(left + right, n)
  }

  lemma InRange(order: seq<nat>, n: nat, k: nat)
    requires Arranged(order, n) && k < |order|
    ensures 1 <= order[k] < n
  {
    assert order[k] in order;
  }

  lemma There(order: seq<nat>, n: nat, o: nat)
    requires Arranged(order, n) && 1 <= o < n
    ensures o in order
  {
  }

  /** The halves hold the first k offsets of the order. */
  ghost predicate Placed(left: seq<nat>, right: seq<nat>, order: seq<nat>, k: nat)
    requires k <= |order|
  {
    multiset(left + right) == multiset(order[..k])
  }

  lemma NothingPlaced(order: seq<nat>)
    ensures Placed([], [], order, 0)
  {
  }

  lemma PlaceNext(left: seq<nat>, right: seq<nat>, order: seq<nat>, k: nat)
    requires k < |order| && Placed(left, right, order, k)
    ensures Placed(left + [order[k]], right, order, k + 1) && Placed(left, right + [order[k]], order, k + 1)
    ensures order[..k + 1] == order[..k] + [order[k]]
  {
    var j := order[k];
    assert order[..k + 1] == order[..k] + [j];
    assert multiset((left + [j]) + right) == multiset(left + right) + multiset{j};
    assert multiset(left + (right + [j])) == multiset(left + right) + multiset{j} by {
      assert left + (right + [j]) == (left + right) + [j];
    }
  }

  lemma AllPlaced(left: seq<nat>, right: seq<nat>, order: seq<nat>, n: nat)
    requires Arranged(order, n) && Placed(left, right, order, |order|)
    ensures Arranged(left + right, n)
  {
    assert order[..|order|] == order;
    SamePlaces(order, left + right, n);
  }

  /** A rearrangement is arranged too. */
  lemma SamePlaces(order: seq<nat>, other: seq<nat>, n: nat)
    requires Arranged(order, n) && multiset(order) == multiset(other)
    ensures Arranged(other, n)
  {
    forall o: nat ensures o in other <==> 1 <= o < n {
      assert o in other <==> o in multiset(other);
      assert o in order <==> o in multiset(order);
    }
    forall j, k | 0 <= j < k < |other| ensures other[j] != other[k] {
      Once(order, other[k]);
      if other[j] == other[k] {
        Twice(other, j, k);
      }
    }
  }

  lemma {:induction false} Once(s: seq<nat>, x: nat)
    requires forall j, k :: 0 <= j < k < |s| ==> s[j] != s[k]
    ensures multiset(s)[x] <= 1
  {
    if s != [] {
      var n := |s| - 1;
      Once(s[..n], x);
      assert s == s[..n] + [s[n]];
      assert s[n] !in s[..n];
    }
  }

  lemma Twice(s: seq<nat>, j: nat, k: nat)
    requires j < k < |s| && s[j] == s[k]
    ensures multiset(s)[s[k]] >= 2
  {
    assert s == s[..k] + s[k..];
    assert s[j] in s[..k] && s[k] in s[k..];
    assert multiset(s) == multiset(s[..k]) + multiset(s[k..]);
    assert multiset(s[..k])[s[k]] >= 1 by { assert s[..k][j] == s[k]; }
    assert multiset(s[k..])[s[k]] >= 1 by { assert s[k..][0] == s[k]; }
  }

  // ---------------------------------------------------------------- the entries at some offsets

  ghost predicate InVector<T>(vector: seq<T>, offs: seq<nat>) {
    forall k :: 0 <= k < |offs| ==> offs[k] < |vector|
  }

  function Select<T>(vector: seq<T>, offs: seq<nat>): (picked: seq<T>)
    requires InVector(vector, offs)
    ensures |picked| == |offs| && forall k :: 0 <= k < |offs| ==> picked[k] == vector[offs[k]]
  {
    if offs == [] then [] else Select(vector, offs[..|offs| - 1]) + [vector[offs[|offs| - 1]]]
  }

  lemma SelectNext<T>(vector: seq<T>, offs: seq<nat>, o: nat)
    requires InVector(vector, offs) && o < |vector|
    ensures InVector(vector, offs + [o]) && Select(vector, offs + [o]) == Select(vector, offs) + [vector[o]]
  {
    assert (offs + [o])[..|offs|] == offs;
  }
}
