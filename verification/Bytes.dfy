/** Byte strings in the order of memcmp followed by length (byteacmp). */
module Bytes {

  type byte = b: int | 0 <= b < 256

  /** Length of the longest common prefix. */
  function Common(a: seq<byte>, b: seq<byte>): nat {
    if a == [] || b == [] || a[0] != b[0] then 0 else 1 + Common(a[1..], b[1..])
  }

  /** k is where a and b part. */
  ghost predicate PartAt(a: seq<byte>, b: seq<byte>, k: nat) {
    && k <= |a| && k <= |b| && a[..k] == b[..k]
    && (k < |a| && k < |b| ==> a[k] != b[k])
  }

  predicate Leq(a: seq<byte>, b: seq<byte>) {
    var k := Common(a, b);
    k == |a| || (k < |a| && k < |b| && a[k] < b[k])
  }

  predicate Less(a: seq<byte>, b: seq<byte>) { !Leq(b, a) }

  lemma {:induction false} CommonParts(a: seq<byte>, b: seq<byte>)
    ensures PartAt(a, b, Common(a, b))
  {
    if a != [] && b != [] && a[0] == b[0] {
      CommonParts(a[1..], b[1..]);
      var k := Common(a[1..], b[1..]);
      assert a[..k + 1] == [a[0]] + a[1..][..k] && b[..k + 1] == [b[0]] + b[1..][..k];
    }
  }

  lemma PartUnique(a: seq<byte>, b: seq<byte>, k: nat)
    requires PartAt(a, b, k)
    ensures Common(a, b) == k
  {
    CommonParts(a, b);
    var c := Common(a, b);
    assert forall i :: 0 <= i < k ==> a[..k][i] == b[..k][i] && a[i] == b[i];
    assert forall i :: 0 <= i < c ==> a[..c][i] == b[..c][i] && a[i] == b[i];
  }

  lemma SharedPrefix(a: seq<byte>, b: seq<byte>, p: seq<byte>)
    requires p <= a && p <= b
    ensures |p| <= Common(a, b)
  {
    CommonParts(a, b);
    assert forall i :: 0 <= i < |p| ==> a[i] == p[i] == b[i];
  }

  /** The order is decided where the strings part. */
  lemma LeqAt(a: seq<byte>, b: seq<byte>, k: nat)
    requires PartAt(a, b, k)
    ensures Leq(a, b) <==> k == |a| || (k < |b| && a[k] < b[k])
    ensures Leq(b, a) <==> k == |b| || (k < |a| && b[k] < a[k])
  {
    PartUnique(a, b, k);
    PartUnique(b, a, k);
  }

  lemma LeqTotal(a: seq<byte>, b: seq<byte>)
    ensures Leq(a, b) || Leq(b, a)
    ensures Leq(a, b) && Leq(b, a) ==> a == b
  {
    CommonParts(a, b);
    LeqAt(a, b, Common(a, b));
  }

  lemma LeqReflexive(a: seq<byte>)
    ensures Leq(a, a)
  {
    LeqTotal(a, a);
  }

  /** If a <= b <= c then b keeps every prefix that a and c share. */
  lemma Between(a: seq<byte>, b: seq<byte>, c: seq<byte>, p: seq<byte>)
    requires Leq(a, b) && Leq(b, c) && p <= a && p <= c
    ensures p <= b
  {
    CommonParts(a, b);
    var i := Common(a, b);
    LeqAt(a, b, i);
    if i < |p| {
      assert b[..i] == a[..i] == p[..i] == c[..i] && a[i] == p[i] == c[i];
      LeqAt(b, c, i);
    } else {
      assert p == a[..i][..|p|] == b[..|p|];
    }
  }

  lemma LeqTransitive(a: seq<byte>, b: seq<byte>, c: seq<byte>)
    requires Leq(a, b) && Leq(b, c)
    ensures Leq(a, c)
  {
    CommonParts(a, b);
    CommonParts(b, c);
    var i, j := Common(a, b), Common(b, c);
    var k := if i < j then i else j;
    assert a[..k] == a[..i][..k] == b[..i][..k] == b[..k];
    assert c[..k] == c[..j][..k] == b[..j][..k] == b[..k];
    if i < j { assert b[..j][i] == c[..j][i]; }
    if j < i { assert a[..i][j] == b[..i][j]; }
    LeqAt(a, b, i);
    LeqAt(b, c, j);
    LeqAt(a, c, k);
  }

  lemma PrefixLeq(p: seq<byte>, a: seq<byte>)
    requires p <= a
    ensures Leq(p, a) && Common(p, a) == |p|
  {
    LeqAt(p, a, |p|);
    PartUnique(p, a, |p|);
  }

  /** A string above b and not extending it is already above b where they part. */
  lemma AboveAt(b: seq<byte>, x: seq<byte>) returns (k: nat)
    requires !Leq(x, b) && !(b <= x)
    ensures k < |b| && k < |x| && b[..k] == x[..k] && b[k] < x[k]
  {
    CommonParts(b, x);
    k := Common(b, x);
    LeqAt(b, x, k);
  }
}
