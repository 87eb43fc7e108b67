/** The two recursive binary searches of the learned index (comp10002/a1/program.c):
    search_mappings over the segment boundaries and search_key over the sorted dataset.
    Both report a status and a location; the comparison traces they print are not modelled. */
module Search {
  import opened LinearModel
  import opened Sorting

  /** BS_FOUND with the location written to `*locn`, or BS_NOT_FOUND. */
  datatype Status = Found(locn: int) | NotFound

  /** The segment boundaries of `mappings[lo .. hi)` are in non-decreasing order. */
  ghost predicate BoundariesSorted(mappings: seq<Mapping>, lo: int, hi: int)
    requires 0 <= lo <= hi <= |mappings|
  {
    forall i, j :: lo <= i < j < hi ==> mappings[i].max <= mappings[j].max
  }

  /** The values of `dataset[lo .. hi)` are in non-decreasing order. */
  ghost predicate SortedBetween(dataset: seq<int>, lo: int, hi: int)
    requires 0 <= lo && hi <= |dataset|
  {
    forall i, j :: lo <= i < j < hi ==> dataset[i] <= dataset[j]
  }

  /** search_mappings: never reports absence. It stops at a boundary equal to `key`, or
      else at the point where `key` would be inserted: the boundary just before that point
      is smaller than `key` and the one at it is larger. */
  function SearchMappings(mappings: seq<Mapping>, lo: int, hi: int, key: int): (r: Status)
    requires 0 <= lo <= hi <= |mappings|
    ensures r.Found? && lo <= r.locn <= hi
    ensures || (r.locn < hi && mappings[r.locn].max == key)
            || (&& (r.locn == lo || mappings[r.locn - 1].max < key)
                && (r.locn == hi || mappings[r.locn].max > key))
    decreases hi - lo
  {
    var mid := (lo + hi) / 2;
    if lo >= hi then Found(mid)
    else if Cmp(key, mappings[mid].max) < 0 then SearchMappings(mappings, lo, mid, key)
    else if Cmp(key, mappings[mid].max) > 0 then SearchMappings(mappings, mid + 1, hi, key)
    else Found(mid)
  }

  /** On sorted boundaries the location search_mappings reports splits the range: either its
      boundary is `key`, or every boundary before it is below `key` and every boundary from it
      on is above `key`. */
  lemma SearchMappingsSplits(mappings: seq<Mapping>, lo: int, hi: int, key: int)
    requires 0 <= lo <= hi <= |mappings|
    requires BoundariesSorted(mappings, lo, hi)
    ensures var p := SearchMappings(mappings, lo, hi, key).locn;
            || (p < hi && mappings[p].max == key)
            || (&& (forall k :: lo <= k < p ==> mappings[k].max < key)
                && (forall k :: p <= k < hi ==> mappings[k].max > key))
  {
    var p := SearchMappings(mappings, lo, hi, key).locn;
    if !(p < hi && mappings[p].max == key) {
      SplitsAt(mappings, lo, hi, p, key);
    }
  }

  /** On sorted boundaries, a point with a smaller boundary just before it and a larger one
      at it has only smaller boundaries before it and only larger ones from it on. */
  lemma SplitsAt(mappings: seq<Mapping>, lo: int, hi: int, p: int, key: int)
    requires 0 <= lo <= p <= hi <= |mappings|
    requires BoundariesSorted(mappings, lo, hi)
    requires p == lo || mappings[p - 1].max < key
    requires p == hi || mappings[p].max > key
    ensures forall k :: lo <= k < p ==> mappings[k].max < key
    ensures forall k :: p <= k < hi ==> mappings[k].max > key
  {
    forall k | lo <= k < p ensures mappings[k].max < key {
      assert mappings[k].max <= mappings[p - 1].max;
    }
    forall k | p <= k < hi ensures mappings[k].max > key {
      assert mappings[p].max <= mappings[k].max;
    }
  }

  /** When `key` is not above the last boundary, search_mappings stops inside the range, at
      a segment whose boundary is at least `key`. */
  lemma SearchMappingsInside(mappings: seq<Mapping>, lo: int, hi: int, key: int)
    requires 0 <= lo < hi <= |mappings|
    requires key <= mappings[hi - 1].max
    requires BoundariesSorted(mappings, lo, hi)
    ensures var p := SearchMappings(mappings, lo, hi, key).locn;
            p < hi && mappings[p].max >= key
  {
    SearchMappingsSplits(mappings, lo, hi, key);
  }

  /** search_key: reports only a location in `[lo, hi)` that holds `key`, reports absence at
      once on an empty range, and on a sorted range reports absence only when no element of
      the range is `key`. */
  function SearchKey(dataset: seq<int>, lo: int, hi: int, key: int): (r: Status)
    requires 0 <= lo && hi <= |dataset|
    ensures r.Found? ==> lo <= r.locn < hi && dataset[r.locn] == key
    ensures lo >= hi ==> r == NotFound
    ensures r.NotFound? && SortedBetween(dataset, lo, hi) ==>
              forall k :: lo <= k < hi ==> dataset[k] != key
    decreases hi - lo
  {
    var mid := (lo + hi) / 2;
    if lo >= hi then NotFound
    else if Cmp(key, dataset[mid]) < 0 then SearchKey(dataset, lo, mid, key)
    else if Cmp(key, dataset[mid]) > 0 then SearchKey(dataset, mid + 1, hi, key)
    else Found(mid)
  }
}
