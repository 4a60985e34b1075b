/** src/bsearch.rs: the index-based binary search behind every node lookup. */
module BinarySearch {
  import opened Bytes

  /** Rust's `Result<usize, usize>`: where the key is, or where it would go. */
  datatype SearchResult = Found(index: nat) | Missing(index: nat) {
    /** `unwrap_or_else(identity)`. */
    function Position(): nat { index }
  }

  /** The comparison is Less, then Equal, then Greater as the index grows. */
  ghost predicate Sorted(n: nat, f: nat --> Ordering)
    requires forall i: nat | i < n :: f.requires(i)
  {
    forall i: nat, j: nat | i < j < n :: (f(j).Less? ==> f(i).Less?) && (f(i).Greater? ==> f(j).Greater?)
  }

  /** For any comparison at all the search stays inside `[0, n)`, terminates, and what it reports
      about the probes next to its answer is true; for a sorted comparison the answer is exact. */
  method BinarySearchBy(n: nat, f: nat --> Ordering) returns (r: SearchResult)
    requires forall i: nat | i < n :: f.requires(i)
    ensures r.Found? ==> r.index < n && f(r.index).Equal?
    ensures r.Missing? ==> r.index <= n
    ensures r.Missing? && r.index > 0 ==> f(r.index - 1).Less?
    ensures r.Missing? && r.index < n ==> f(r.index).Greater?
    ensures r.Missing? && Sorted(n, f) ==> forall i: nat | i < r.index :: f(i).Less?
    ensures r.Missing? && Sorted(n, f) ==> forall i: nat | r.index <= i < n :: f(i).Greater?
  {
    var left, right, size := 0, n, n;
    while left < right
      invariant 0 <= left <= right <= n && size == right - left
      invariant left > 0 ==> f(left - 1).Less?
      invariant right < n ==> f(right).Greater?
      decreases right - left
    {
      var mid := left + size / 2;
      var cmp := f(mid);
      if cmp == Less {
        left := mid + 1;
      } else if cmp == Greater {
        right := mid;
      } else {
        return Found(mid);
      }
      size := right - left;
    }
    return Missing(left);
  }
}
