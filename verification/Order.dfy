/** Three-way comparisons. */
module Order {
  type Comparison<!T> = (T, T) -> int

  /** A three-way comparison that orders all values; distinct values may compare equal. */
  ghost predicate TotalOrder<T(!new)>(cmp: Comparison<T>) {
    && (forall a, b :: cmp(a, b) < 0 <==> cmp(b, a) > 0)
    && (forall a, b, c :: cmp(a, b) <= 0 && cmp(b, c) <= 0 ==> cmp(a, c) <= 0)
  }

  lemma Below<T(!new)>(cmp: Comparison<T>, a: T, b: T, c: T)
    requires TotalOrder(cmp) && cmp(a, b) <= 0 && cmp(b, c) <= 0
    ensures cmp(a, c) <= 0
    ensures cmp(a, b) < 0 || cmp(b, c) < 0 ==> cmp(a, c) < 0
  {
    if cmp(c, a) <= 0 {
      assert cmp(c, b) <= 0 && cmp(b, a) <= 0;
    }
  }
}
