/** The GiST index on cubes: union keys, Guttman's split, and what a search may prune. */
module CubeIndex {
  import opened Cube
  import opened Options
  import opened PageOffsets

  // ---------------------------------------------------------------- bounding boxes

  /** In dimension i the box reaches exactly as far as the zero-padded boxes do. */
  ghost predicate BoundsAt(r: Box, boxes: seq<Box>, i: nat) {
    && (forall b: Box :: b in boxes ==> Lo(r, i) <= Lo(b, i) && Hi(b, i) <= Hi(r, i))
    && (exists b: Box :: b in boxes && Lo(b, i) == Lo(r, i))
    && (exists b: Box :: b in boxes && Hi(b, i) == Hi(r, i))
  }

  /** The box is exactly the zero-padded bounding box of the boxes. */
  ghost predicate Bounds(r: Box, boxes: seq<Box>) {
    && (forall b: Box :: b in boxes ==> b.dim <= r.dim)
    && (exists b: Box :: b in boxes && b.dim == r.dim)
    && (forall i: nat :: BoundsAt(r, boxes, i))
  }

  lemma BoundsOne(r: Box, b: Box)
    requires r.dim == b.dim && forall i: nat :: Lo(r, i) == Lo(b, i) && Hi(r, i) == Hi(b, i)
    ensures Bounds(r, [b])
  {
    assert b in [b];
  }

  lemma BoundsNext(next: Box, r: Box, boxes: seq<Box>, b: Box)
    requires Bounds(r, boxes) && IsUnion(next, r, b)
    ensures Bounds(next, boxes + [b])
  {
    hide Lo, Hi;
    var all := boxes + [b];
    assert b in all;
    var w: Box :| w in boxes && w.dim == r.dim;
    assert w in all;
    forall i: nat ensures BoundsAt(next, all, i) {
      assert BoundsAt(r, boxes, i);
      var lo: Box :| lo in boxes && Lo(lo, i) == Lo(r, i);
      var hi: Box :| hi in boxes && Hi(hi, i) == Hi(r, i);
      assert lo in all && hi in all;
    }
  }

  lemma BoundsSame(r: Box, boxes: seq<Box>, others: seq<Box>)
    requires Bounds(r, boxes) && forall b: Box :: b in boxes <==> b in others
    ensures Bounds(r, others)
  {
    hide Lo, Hi;
    forall i: nat ensures BoundsAt(r, others, i) {
      assert BoundsAt(r, boxes, i);
    }
  }

  /** g_cube_union: a single entry yields no box at all. */
  method UnionAll(vector: seq<Box>) returns (out: Option<Box>)
    requires vector != []
    ensures out.None? <==> |vector| == 1
    ensures out.Some? ==> Bounds(out.value, vector)
  {
    hide Bounds, IsUnion;
    out := None;
    var tmp := vector[0];
    BoundsOne(tmp, tmp);
    assert vector[..1] == [tmp];
    for i := 1 to |vector|
      invariant Bounds(tmp, vector[..i])
      invariant out == if i == 1 then None else Some(tmp)
    {
      var r := Union(tmp, vector[i]);
      BoundsNext(r, tmp, vector[..i], vector[i]);
      assert vector[..i + 1] == vector[..i] + [vector[i]];
      out := Some(r);
      tmp := r;
    }
    assert vector[..|vector|] == vector;
  }

  // ---------------------------------------------------------------- the split

  function Abs(r: real): real { if r < 0.0 then -r else r }

  /** The product of the sides, over the first n dimensions. */
  function Volume(b: Box, n: nat): real
    requires n <= b.dim
  {
    if n == 0 then 1.0 else Volume(b, n - 1) * Abs(b.x[n - 1 + b.dim] - b.x[n - 1])
  }

  /** rt_cube_size */
  method Size(b: Box) returns (size: real)
    ensures size == Volume(b, b.dim)
  {
    size := 1.0;
    for i := 0 to b.dim
      invariant size == Volume(b, i)
    {
      size := size * Abs(b.x[i + b.dim] - b.x[i]);
    }
  }

  /** The volumes of the union and of the intersection, over the first n dimensions. */
  function UnionVolume(a: Box, b: Box, n: nat): real {
    if n == 0 then 1.0
    else UnionVolume(a, b, n - 1) * Abs(Max(Hi(a, n - 1), Hi(b, n - 1)) - Min(Lo(a, n - 1), Lo(b, n - 1)))
  }

  function InterVolume(a: Box, b: Box, n: nat): real {
    if n == 0 then 1.0
    else InterVolume(a, b, n - 1) * Abs(Min(Hi(a, n - 1), Hi(b, n - 1)) - Max(Lo(a, n - 1), Lo(b, n - 1)))
  }

  /** The space two boxes would waste in one box. */
  function Waste(a: Box, b: Box): real { UnionVolume(a, b, MaxDim(a, b)) - InterVolume(a, b, MaxDim(a, b)) }

  lemma UnionCorners(r: Box, a: Box, b: Box)
    requires IsUnion(r, a, b)
    ensures forall i: nat :: i < r.dim ==>
              r.x[i] == Min(Lo(a, i), Lo(b, i)) && r.x[i + r.dim] == Max(Hi(a, i), Hi(b, i))
  {
    forall i: nat | i < r.dim ensures r.x[i] == Min(Lo(a, i), Lo(b, i)) && r.x[i + r.dim] == Max(Hi(a, i), Hi(b, i)) {
      assert Lo(r, i) == r.x[i] && Hi(r, i) == r.x[i + r.dim];
      hide Lo, Hi;
    }
  }

  lemma {:induction false} VolumeOfUnion(r: Box, a: Box, b: Box, n: nat)
    requires forall i: nat :: i < r.dim ==>
               r.x[i] == Min(Lo(a, i), Lo(b, i)) && r.x[i + r.dim] == Max(Hi(a, i), Hi(b, i))
    requires n <= r.dim
    ensures Volume(r, n) == UnionVolume(a, b, n)
  {
    hide Lo, Hi, Min, Max;
    if n > 0 {
      VolumeOfUnion(r, a, b, n - 1);
    }
  }

  method WasteOf(a: Box, b: Box) returns (waste: real)
    ensures waste == Waste(a, b)
  {
    var union := Union(a, b);
    var sizeUnion := Size(union);
    UnionCorners(union, a, b);
    VolumeOfUnion(union, a, b, union.dim);
    var inter := Inter(a, b);
    var sizeInter := Size(inter);
    VolumeOfInter(inter, a, b, inter.dim);
    waste := sizeUnion - sizeInter;
  }

  lemma {:induction false} VolumeOfInter(r: Box, a: Box, b: Box, n: nat)
    requires forall i: nat :: i < r.dim ==>
               r.x[i] == Max(Lo(a, i), Lo(b, i)) && r.x[i + r.dim] == Min(Hi(a, i), Hi(b, i))
    requires n <= r.dim
    ensures Volume(r, n) == InterVolume(a, b, n)
  {
    hide Lo, Hi, Min, Max;
    if n > 0 {
      VolumeOfInter(r, a, b, n - 1);
    }
  }

  /** One pair of offsets comes before another. */
  predicate Earlier(i: nat, j: nat, seed1: nat, seed2: nat) { i < seed1 || (i == seed1 && j < seed2) }

  /** The first of the pairs that waste most, the last entry aside; the first two entries if there is no choice. */
  ghost predicate AreSeeds(vector: seq<Box>, seed1: nat, seed2: nat)
    requires |vector| >= 3
  {
    && 1 <= seed1 < seed2 < |vector|
    && (|vector| == 3 ==> seed1 == 1 && seed2 == 2)
    && (|vector| > 3 ==> seed2 <= |vector| - 2 && FirstWorst(vector, seed1, seed2, |vector| - 2, |vector| - 2))
  }

  /** No pair whose first entry comes before n wastes more, and no earlier one as much. */
  ghost predicate FirstWorst(vector: seq<Box>, seed1: nat, seed2: nat, n: nat, maxoff: nat)
    requires maxoff < |vector| && seed1 < |vector| && seed2 < |vector|
  {
    forall i, j :: 1 <= i < n && i < j <= maxoff ==> Loses(vector, i, j, seed1, seed2)
  }

  ghost predicate Loses(vector: seq<Box>, i: nat, j: nat, seed1: nat, seed2: nat)
    requires i < |vector| && j < |vector| && seed1 < |vector| && seed2 < |vector|
  {
    var w, waste := Waste(vector[i], vector[j]), Waste(vector[seed1], vector[seed2]);
    w <= waste && (Earlier(i, j, seed1, seed2) ==> w < waste)
  }

  /** A pair that wastes more makes every pair lose that lost to the one before. */
  lemma WorseYet(vector: seq<Box>, seed1: nat, seed2: nat, i: nat, j: nat)
    requires seed1 < |vector| && seed2 < |vector| && i < |vector| && j < |vector|
    requires Waste(vector[seed1], vector[seed2]) < Waste(vector[i], vector[j])
    ensures forall i', j' | 0 <= i' < |vector| && 0 <= j' < |vector| && Loses(vector, i', j', seed1, seed2) ::
              Loses(vector, i', j', i, j)
  {
    hide Waste;
  }

  method Seeds(vector: seq<Box>) returns (seed1: nat, seed2: nat)
    requires |vector| >= 3
    ensures AreSeeds(vector, seed1, seed2)
  {
    hide Waste;
    var maxoff := |vector| - 2;
    var firsttime, waste := true, 0.0;
    seed1, seed2 := 1, 2;
    var i := 1;
    while i < maxoff
      invariant 1 <= i <= maxoff && 1 <= seed1 < seed2 < |vector|
      invariant if firsttime then i == 1 && seed1 == 1 && seed2 == 2
                else waste == Waste(vector[seed1], vector[seed2]) && seed1 < i && seed2 <= maxoff
      invariant FirstWorst(vector, seed1, seed2, i, maxoff)
    {
      var j := i + 1;
      while j <= maxoff
        invariant i < j <= maxoff + 1 && 1 <= seed1 < seed2 < |vector|
        invariant if firsttime then i == 1 && j == 2 && seed1 == 1 && seed2 == 2
                  else waste == Waste(vector[seed1], vector[seed2]) && seed2 <= maxoff && Earlier(seed1, seed2, i, j)
        invariant FirstWorst(vector, seed1, seed2, i, maxoff)
        invariant forall j' :: i < j' < j ==> Loses(vector, i, j', seed1, seed2)
      {
        var w := WasteOf(vector[i], vector[j]);
        if w > waste || firsttime {
          if !firsttime { WorseYet(vector, seed1, seed2, i, j); }
          waste, seed1, seed2, firsttime := w, i, j, false;
        }
        j := j + 1;
      }
      i := i + 1;
    }
  }

  ghost predicate Increasing(offs: seq<nat>) {
    forall j, k :: 0 <= j < k < |offs| ==> offs[j] < offs[k]
  }

  /** The offsets below n are on one side or the other, both sides in order. */
  ghost predicate Dealt(left: seq<nat>, right: seq<nat>, n: nat) {
    && Increasing(left) && Increasing(right)
    && (forall o: nat :: o in left ==> o !in right)
    && (forall o: nat :: o in left || o in right <==> 1 <= o < n)
  }

  lemma DealNext(left: seq<nat>, right: seq<nat>, n: nat)
    requires Dealt(left, right, n) && n >= 1
    ensures Dealt(left + [n], right, n + 1) && Dealt(left, right + [n], n + 1)
  {
    assert forall k :: 0 <= k < |left| ==> left[k] in left;
    assert forall k :: 0 <= k < |right| ==> right[k] in right;
  }

  lemma DealtArranged(left: seq<nat>, right: seq<nat>, n: nat)
    requires Dealt(left, right, n)
    ensures Arranged(left + right, n)
  {
    var all := left + right;
    forall j, k | 0 <= j < k < |all| ensures all[j] != all[k] {
      if j < |left| <= k {
        assert left[j] in left && right[k - |left|] in right;
      }
    }
  }

  /** The datum is the bounding box of the boxes placed on its side and of the side's seed. */
  ghost predicate Datum(vector: seq<Box>, offs: seq<nat>, seed: nat, datum: Box)
    requires seed < |vector|
  {
    InVector(vector, offs) && Bounds(datum, Select(vector, offs) + [vector[seed]])
  }

  lemma DatumSeed(vector: seq<Box>, offs: seq<nat>, seed: nat, datum: Box)
    requires seed < |vector| && Datum(vector, offs, seed, datum)
    ensures Datum(vector, offs + [seed], seed, datum)
    ensures seed in offs ==> Bounds(datum, Select(vector, offs))
  {
    hide Bounds;
    var more, own := Select(vector, offs + [seed]), Select(vector, offs);
    assert (offs + [seed])[..|offs|] == offs;
    assert more == own + [vector[seed]];
    BoundsSame(datum, own + [vector[seed]], more + [vector[seed]]);
    if seed in offs {
      var k :| 0 <= k < |offs| && offs[k] == seed;
      assert own[k] == vector[seed];
      BoundsSame(datum, own + [vector[seed]], own);
    }
  }

  lemma DatumNext(vector: seq<Box>, offs: seq<nat>, seed: nat, datum: Box, o: nat, next: Box)
    requires seed < |vector| && o < |vector| && Datum(vector, offs, seed, datum) && IsUnion(next, datum, vector[o])
    ensures Datum(vector, offs + [o], seed, next)
  {
    hide Bounds, IsUnion;
    var own := Select(vector, offs);
    assert (offs + [o])[..|offs|] == offs;
    assert Select(vector, offs + [o]) == own + [vector[o]];
    BoundsNext(next, datum, own + [vector[seed]], vector[o]);
    BoundsSame(next, own + [vector[seed]] + [vector[o]], own + [vector[o]] + [vector[seed]]);
  }

  // ---------------------------------------------------------------- which side takes an entry

  function SpanLo(boxes: seq<Box>, i: nat): real
    requires boxes != []
  {
    if |boxes| == 1 then Lo(boxes[0], i) else Min(SpanLo(boxes[..|boxes| - 1], i), Lo(boxes[|boxes| - 1], i))
  }

  function SpanHi(boxes: seq<Box>, i: nat): real
    requires boxes != []
  {
    if |boxes| == 1 then Hi(boxes[0], i) else Max(SpanHi(boxes[..|boxes| - 1], i), Hi(boxes[|boxes| - 1], i))
  }

  function SpanDim(boxes: seq<Box>): nat {
    if boxes == [] then 0
    else
      var dim, last := SpanDim(boxes[..|boxes| - 1]), boxes[|boxes| - 1].dim;
      if dim < last then last else dim
  }

  /** The volume that the boxes span together, over the first n dimensions. */
  function SpanVolume(boxes: seq<Box>, n: nat): real
    requires boxes != []
  {
    if n == 0 then 1.0 else SpanVolume(boxes, n - 1) * (SpanHi(boxes, n - 1) - SpanLo(boxes, n - 1))
  }

  lemma {:induction false} SpanExtremes(boxes: seq<Box>, i: nat)
    requires boxes != []
    ensures forall b :: b in boxes ==> SpanLo(boxes, i) <= Lo(b, i) && Hi(b, i) <= SpanHi(boxes, i)
    ensures exists b :: b in boxes && Lo(b, i) == SpanLo(boxes, i)
    ensures exists b :: b in boxes && Hi(b, i) == SpanHi(boxes, i)
  {
    hide Lo, Hi;
    if |boxes| == 1 {
      assert boxes[0] in boxes;
    } else {
      var init, last := boxes[..|boxes| - 1], boxes[|boxes| - 1];
      SpanExtremes(init, i);
      assert boxes == init + [last] && last in boxes;
      var lo :| lo in init && Lo(lo, i) == SpanLo(init, i);
      var hi :| hi in init && Hi(hi, i) == SpanHi(init, i);
      assert lo in boxes && hi in boxes;
    }
  }

  lemma {:induction false} SpanLargest(boxes: seq<Box>)
    requires boxes != []
    ensures forall b :: b in boxes ==> b.dim <= SpanDim(boxes)
    ensures exists b :: b in boxes && b.dim == SpanDim(boxes)
  {
    var init, last := boxes[..|boxes| - 1], boxes[|boxes| - 1];
    assert boxes == init + [last] && last in boxes;
    if init != [] {
      SpanLargest(init);
      var b :| b in init && b.dim == SpanDim(init);
      assert b in boxes;
    }
  }

  lemma BoundsAreSpan(r: Box, boxes: seq<Box>, i: nat)
    requires boxes != [] && Bounds(r, boxes)
    ensures r.dim == SpanDim(boxes) && Lo(r, i) == SpanLo(boxes, i) && Hi(r, i) == SpanHi(boxes, i)
  {
    hide Lo, Hi, SpanLo, SpanHi, SpanDim;
    assert BoundsAt(r, boxes, i);
    SpanExtremes(boxes, i);
    SpanLargest(boxes);
  }

  lemma SideLength(r: Box, i: nat)
    requires i < r.dim
    ensures Hi(r, i) - Lo(r, i) == Abs(r.x[i + r.dim] - r.x[i])
  {
  }

  lemma {:induction false} BoundsVolume(r: Box, boxes: seq<Box>, n: nat)
    requires boxes != [] && Bounds(r, boxes) && n <= r.dim
    ensures Volume(r, n) == SpanVolume(boxes, n)
  {
    hide Bounds, SpanLo, SpanHi, SpanDim, Lo, Hi, Abs;
    if n > 0 {
      BoundsVolume(r, boxes, n - 1);
      BoundsAreSpan(r, boxes, n - 1);
      SideLength(r, n - 1);
    }
  }

  /** The volume of a side that has these entries and its seed. */
  function SideVolume(vector: seq<Box>, offs: seq<nat>, seed: nat): real
    requires InVector(vector, offs) && seed < |vector|
  {
    var boxes := Select(vector, offs) + [vector[seed]];
    SpanVolume(boxes, SpanDim(boxes))
  }

  lemma DatumVolume(vector: seq<Box>, offs: seq<nat>, seed: nat, datum: Box)
    requires seed < |vector| && Datum(vector, offs, seed, datum)
    ensures Volume(datum, datum.dim) == SideVolume(vector, offs, seed)
  {
    var boxes := Select(vector, offs) + [vector[seed]];
    hide Bounds, Volume, SpanVolume;
    BoundsVolume(datum, boxes, datum.dim);
    BoundsAreSpan(datum, boxes, 0);
  }

  /** How much a side must grow to take an entry. */
  function Growth(vector: seq<Box>, offs: seq<nat>, seed: nat, o: nat): real
    requires InVector(vector, offs) && seed < |vector| && o < |vector|
  {
    SideVolume(vector, offs + [o], seed) - SideVolume(vector, offs, seed)
  }

  /** The sides after the offsets below n: seeds on their own side, every other entry on the left exactly if that side
      then needs to grow less. */
  ghost function Sides(vector: seq<Box>, seed1: nat, seed2: nat, n: nat): (sides: (seq<nat>, seq<nat>))
    requires 1 <= n <= |vector| && seed1 < |vector| && seed2 < |vector|
    ensures InVector(vector, sides.0) && InVector(vector, sides.1)
  {
    if n == 1 then ([], [])
    else
      var (left, right) := Sides(vector, seed1, seed2, n - 1);
      var o := n - 1;
      if o == seed1 || (o != seed2 && Growth(vector, left, seed1, o) < Growth(vector, right, seed2, o))
      then (left + [o], right)
      else (left, right + [o])
  }

  /** g_cube_picksplit */
  method PickSplit(vector: seq<Box>)
    returns (left: seq<nat>, right: seq<nat>, ldatum: Box, rdatum: Box, ghost seed1: nat, ghost seed2: nat)
    requires |vector| >= 3
    ensures AreSeeds(vector, seed1, seed2) && (left, right) == Sides(vector, seed1, seed2, |vector|)
    ensures Splits(left, right, |vector|) && Increasing(left) && Increasing(right)
    ensures InVector(vector, left) && Bounds(ldatum, Select(vector, left))
    ensures InVector(vector, right) && Bounds(rdatum, Select(vector, right))
  {
    hide Bounds, Arranged, Datum, Increasing, Dealt, SideVolume, Volume, FirstWorst;
    var seedL, seedR := Seeds(vector);
    seed1, seed2 := seedL, seedR;
    var sizeL, sizeR;
    ldatum, sizeL := Seeded(vector, seedL);
    rdatum, sizeR := Seeded(vector, seedR);
    left, right := [], [];
    NothingDealt();
    for i := 1 to |vector|
      invariant Dealt(left, right, i)
      invariant Datum(vector, left, seed1, ldatum) && Datum(vector, right, seed2, rdatum)
      invariant (seed1 in left <==> seed1 < i) && (seed2 in right <==> seed2 < i)
      invariant (left, right) == Sides(vector, seed1, seed2, i)
      invariant sizeL == SideVolume(vector, left, seed1) && sizeR == SideVolume(vector, right, seed2)
    {
      DealNext(left, right, i);
      if i == seedL {
        DatumSeed(vector, left, seed1, ldatum);
        SameVolume(vector, left, left + [i], seed1, ldatum);
        left := left + [i];
      } else if i == seedR {
        DatumSeed(vector, right, seed2, rdatum);
        SameVolume(vector, right, right + [i], seed2, rdatum);
        right := right + [i];
      } else {
        var unionL := Union(ldatum, vector[i]);
        var unionR := Union(rdatum, vector[i]);
        var sizeAlpha := Size(unionL);
        var sizeBeta := Size(unionR);
        DatumNext(vector, left, seed1, ldatum, i, unionL);
        DatumNext(vector, right, seed2, rdatum, i, unionR);
        DatumVolume(vector, left + [i], seed1, unionL);
        DatumVolume(vector, right + [i], seed2, unionR);
        if sizeAlpha - sizeL < sizeBeta - sizeR {
          ldatum, sizeL := unionL, sizeAlpha;
          left := left + [i];
        } else {
          rdatum, sizeR := unionR, sizeBeta;
          right := right + [i];
        }
      }
    }
    DealtArranged(left, right, |vector|);
    DatumSeed(vector, left, seed1, ldatum);
    DatumSeed(vector, right, seed2, rdatum);
    SideFacts(vector, left, right, seed1, seed2, ldatum, rdatum);
  }

  lemma SameVolume(vector: seq<Box>, offs: seq<nat>, offs': seq<nat>, seed: nat, datum: Box)
    requires seed < |vector| && Datum(vector, offs, seed, datum) && Datum(vector, offs', seed, datum)
    ensures SideVolume(vector, offs, seed) == SideVolume(vector, offs', seed)
  {
    hide SideVolume, Volume, Bounds;
    DatumVolume(vector, offs, seed, datum);
    DatumVolume(vector, offs', seed, datum);
  }

  lemma NothingDealt()
    ensures Dealt([], [], 1)
  {
  }

  lemma SideFacts(vector: seq<Box>, left: seq<nat>, right: seq<nat>, seed1: nat, seed2: nat, ldatum: Box, rdatum: Box)
    requires seed1 < |vector| && seed2 < |vector| && Dealt(left, right, |vector|)
    requires Datum(vector, left, seed1, ldatum) && Datum(vector, right, seed2, rdatum)
    ensures Increasing(left) && Increasing(right) && InVector(vector, left) && InVector(vector, right)
  {
  }

  /** A side starts as its seed united with itself. */
  method Seeded(vector: seq<Box>, seed: nat) returns (datum: Box, size: real)
    requires seed < |vector|
    ensures Datum(vector, [], seed, datum) && size == SideVolume(vector, [], seed)
  {
    hide SideVolume, Volume;
    datum := Union(vector[seed], vector[seed]);
    size := Size(datum);
    BoundsOne(datum, vector[seed]);
    assert Select(vector, []) + [vector[seed]] == [vector[seed]];
    DatumVolume(vector, [], seed, datum);
  }

  // ---------------------------------------------------------------- searching

  const OVERLAP := 3
  const SAME := 6
  const CONTAINS := 7
  const CONTAINED_BY := 8
  const OLD_CONTAINS := 13
  const OLD_CONTAINED_BY := 14

  predicate IsContains(strategy: nat) { strategy == CONTAINS || strategy == OLD_CONTAINS }
  predicate IsContainedBy(strategy: nat) { strategy == CONTAINED_BY || strategy == OLD_CONTAINED_BY }

  /** The operator of a strategy. */
  ghost predicate Satisfies(b: Box, query: Box, strategy: nat) {
    match strategy
    case 3 => Overlaps(b, query)
    case 6 => Same(b, query)
    case 7 => Contains(b, query)
    case 8 => Contains(query, b)
    case 13 => Contains(b, query)
    case 14 => Contains(query, b)
    case _ => false
  }

  /** g_cube_leaf_consistent */
  method LeafConsistent(key: Box, query: Box, strategy: nat) returns (res: bool)
    ensures res <==> Satisfies(key, query, strategy)
  {
    if strategy == OVERLAP {
      res := OverlapV0(key, query);
    } else if strategy == SAME {
      var c := CompareV0(key, query);
      res := c == 0;
    } else if IsContains(strategy) {
      res := ContainsV0(key, query);
    } else if IsContainedBy(strategy) {
      res := ContainsV0(query, key);
    } else {
      res := false;
    }
  }

  /** What an inner key is tested for. */
  ghost predicate Admits(key: Box, query: Box, strategy: nat) {
    if strategy in {3, 8, 14} then Overlaps(key, query) else strategy in {6, 7, 13} && Contains(key, query)
  }

  /** g_cube_internal_consistent */
  method InternalConsistent(key: Box, query: Box, strategy: nat) returns (res: bool)
    ensures res <==> Admits(key, query, strategy)
  {
    if strategy == OVERLAP || IsContainedBy(strategy) {
      res := OverlapV0(key, query);
    } else if strategy == SAME || IsContains(strategy) {
      res := ContainsV0(key, query);
    } else {
      res := false;
    }
  }

  /** A row's box, or a key made by g_cube_union or as a datum of g_cube_picksplit from the keys of its parts. */
  datatype History = Row(box: Box) | Made(key: Box, parts: seq<History>)

  function KeyOf(h: History): Box { if h.Row? then h.box else h.key }

  function KeysOf(hs: seq<History>): (keys: seq<Box>)
    ensures |keys| == |hs| && forall i :: 0 <= i < |hs| ==> keys[i] == KeyOf(hs[i])
  {
    if hs == [] then [] else KeysOf(hs[..|hs| - 1]) + [KeyOf(hs[|hs| - 1])]
  }

  ghost predicate WellBuilt(h: History) {
    h.Made? ==> Bounds(h.key, KeysOf(h.parts)) && forall p :: p in h.parts ==> WellBuilt(p)
  }

  ghost predicate Holds(h: History, b: Box) {
    if h.Row? then b == h.box else exists p :: p in h.parts && Holds(p, b)
  }

  /** The key spans the box in every dimension, absent ones read as zero. */
  ghost predicate Spans(key: Box, b: Box) {
    b.dim <= key.dim && forall i: nat :: Lo(key, i) <= Lo(b, i) && Hi(b, i) <= Hi(key, i)
  }

  lemma {:induction false} KeySpansRow(h: History, b: Box)
    requires WellBuilt(h) && Holds(h, b)
    ensures Spans(KeyOf(h), b)
    decreases h
  {
    if h.Made? {
      var p :| p in h.parts && Holds(p, b);
      KeySpansRow(p, b);
      hide Spans, Bounds;
      var i :| 0 <= i < |h.parts| && h.parts[i] == p;
      assert KeysOf(h.parts)[i] == KeyOf(p);
      BoundsSpan(h.key, KeysOf(h.parts), KeyOf(p));
      SpansTransitive(h.key, KeyOf(p), b);
    } else {
      hide Lo, Hi;
    }
  }

  lemma SpansTransitive(a: Box, b: Box, c: Box)
    requires Spans(a, b) && Spans(b, c)
    ensures Spans(a, c)
  {
    hide Lo, Hi;
    forall i: nat ensures Lo(a, i) <= Lo(c, i) && Hi(c, i) <= Hi(a, i) {
      assert Lo(a, i) <= Lo(b, i) && Hi(b, i) <= Hi(a, i);
    }
  }

  lemma BoundsSpan(r: Box, boxes: seq<Box>, b: Box)
    requires Bounds(r, boxes) && b in boxes
    ensures Spans(r, b)
  {
    hide Lo, Hi;
    forall i: nat ensures Lo(r, i) <= Lo(b, i) && Hi(b, i) <= Hi(r, i) {
      assert BoundsAt(r, boxes, i);
    }
  }

  /** The query's dimensions that the box lacks all reach across zero. */
  ghost predicate ExcessMeetsZero(b: Box, query: Box) {
    forall i: nat :: b.dim <= i < query.dim ==> Lo(query, i) <= 0.0 <= Hi(query, i)
  }

  /** No search for overlap, equality or containment prunes a matching row. */
  lemma NoRowLost(h: History, b: Box, query: Box, strategy: nat)
    requires h.Made? && WellBuilt(h) && Holds(h, b) && Satisfies(b, query, strategy)
    ensures (IsContainedBy(strategy) ==> ExcessMeetsZero(b, query)) ==> Admits(h.key, query, strategy)
  {
    KeySpansRow(h, b);
    if IsContainedBy(strategy) ==> ExcessMeetsZero(b, query) {
      SpanAdmits(h.key, b, query, strategy);
    }
  }

  lemma SpanAdmits(key: Box, b: Box, query: Box, strategy: nat)
    requires Spans(key, b) && Satisfies(b, query, strategy)
    requires IsContainedBy(strategy) ==> ExcessMeetsZero(b, query)
    ensures Admits(key, query, strategy)
  {
    if strategy == OVERLAP || IsContainedBy(strategy) {
      forall i: nat ensures Lo(key, i) <= Hi(query, i) && Lo(query, i) <= Hi(key, i) {
        assert Lo(key, i) <= Lo(b, i) && Hi(b, i) <= Hi(key, i);
      }
    } else {
      forall i: nat | i < query.dim || key.dim <= i ensures Lo(key, i) <= Lo(query, i) && Hi(query, i) <= Hi(key, i) {
        assert Lo(key, i) <= Lo(b, i) && Hi(b, i) <= Hi(key, i);
      }
    }
  }

  /** The box united with itself. */
  lemma SelfUnion(b: Box) returns (r: Box)
    ensures r.dim == b.dim && forall i: nat :: Lo(r, i) == Lo(b, i) && Hi(r, i) == Hi(b, i)
  {
    var n := b.dim;
    var x := seq(2 * n, k requires 0 <= k < 2 * n => if k < n then Lo(b, k) else Hi(b, k - n));
    r := NDBox(n, x);
    forall i: nat ensures Lo(r, i) == Lo(b, i) && Hi(r, i) == Hi(b, i) {
      LoBelowHi(b, i);
      if i < n {
        assert x[i] == Lo(b, i) && x[i + n] == Hi(b, i);
        BoundsIn(r, i);
      }
    }
  }

  /** For contained-by, a matching row survives under every key exactly when the query's excess dimensions meet
      zero; they do if the query has no more dimensions than the row. */
  lemma ContainedByExact(b: Box, query: Box)
    requires Satisfies(b, query, CONTAINED_BY)
    ensures (forall h: History :: h.Made? && WellBuilt(h) && Holds(h, b) ==> Admits(h.key, query, CONTAINED_BY))
            <==> ExcessMeetsZero(b, query)
    ensures query.dim <= b.dim ==> ExcessMeetsZero(b, query)
  {
    if ExcessMeetsZero(b, query) {
      forall h: History | h.Made? && WellBuilt(h) && Holds(h, b) ensures Admits(h.key, query, CONTAINED_BY) {
        NoRowLost(h, b, query, CONTAINED_BY);
      }
    } else {
      hide Admits, WellBuilt, Holds, Bounds;
      var key := SelfUnion(b);
      OwnKey(key, b);
      OwnKeyPruned(key, b, query);
      assert Made(key, [Row(b)]).Made?;
    }
  }

  /** A key made of one row alone. */
  lemma OwnKey(key: Box, b: Box)
    requires key.dim == b.dim && forall i: nat :: Lo(key, i) == Lo(b, i) && Hi(key, i) == Hi(b, i)
    ensures WellBuilt(Made(key, [Row(b)])) && Holds(Made(key, [Row(b)]), b)
  {
    hide Lo, Hi, Bounds;
    BoundsOne(key, b);
    assert KeysOf([Row(b)]) == [b];
    assert Row(b) in [Row(b)] && Holds(Row(b), b);
  }

  lemma OwnKeyPruned(key: Box, b: Box, query: Box)
    requires key.dim == b.dim && !ExcessMeetsZero(b, query)
    ensures !Admits(key, query, CONTAINED_BY)
  {
    var i: nat :| b.dim <= i < query.dim && !(Lo(query, i) <= 0.0 <= Hi(query, i));
    assert Lo(key, i) == 0.0 == Hi(key, i);
  }

  /** Such a loss: the interval 1..1 is contained by 0..2 x 5..6, and the key of a page that holds only this row does
      not overlap the query. */
  lemma ContainedByLosesRow(b: Box, query: Box)
    requires b == NDBox(1, [1.0, 1.0]) && query == NDBox(2, [0.0, 5.0, 2.0, 6.0])
    ensures Satisfies(b, query, CONTAINED_BY)
    ensures WellBuilt(Made(b, [Row(b)])) && Holds(Made(b, [Row(b)]), b) && !Admits(b, query, CONTAINED_BY)
  {
    assert Lo(query, 1) == 5.0;
    assert !ExcessMeetsZero(b, query);
    OwnKey(b, b);
    OwnKeyPruned(b, b, query);
  }
}
