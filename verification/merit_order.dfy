/** The merit order: specs sorted by cost per unit, then by capacity, both
    ascending. The sort is stable, so specs with equal keys keep their
    request order. */
module MeritOrder {
  import opened Specs

  /** `a` may precede `b`: ascending on `(costPerUnit, maxUnits)`. */
  predicate KeyLe(a: PlantSpec, b: PlantSpec) {
    a.costPerUnit < b.costPerUnit
    || (a.costPerUnit == b.costPerUnit && a.maxUnits <= b.maxUnits)
  }

  /** The order the stable sort produces: the key, then the request position. */
  predicate MeritBefore(a: PlantSpec, b: PlantSpec) {
    a.costPerUnit < b.costPerUnit
    || (a.costPerUnit == b.costPerUnit
        && (a.maxUnits < b.maxUnits
            || (a.maxUnits == b.maxUnits && a.originalIndex < b.originalIndex)))
  }

  predicate SortedByKey(s: seq<PlantSpec>) {
    forall i, j :: 0 <= i < j < |s| ==> KeyLe(s[i], s[j])
  }

  predicate StrictlyMeritOrdered(s: seq<PlantSpec>) {
    forall i, j :: 0 <= i < j < |s| ==> MeritBefore(s[i], s[j])
  }

  /** Request positions strictly increase along `s`. */
  predicate IndicesIncrease(s: seq<PlantSpec>) {
    forall i, j :: 0 <= i < j < |s| ==> s[i].originalIndex < s[j].originalIndex
  }

  /** Puts `x` in front of the first element it may precede. */
  function Insert(x: PlantSpec, s: seq<PlantSpec>): (r: seq<PlantSpec>)
    ensures multiset(r) == multiset(s) + multiset{x}
    ensures |r| == |s| + 1
  {
    if s == [] || KeyLe(x, s[0]) then [x] + s
    else
      assert s == [s[0]] + s[1..];
      [s[0]] + Insert(x, s[1..])
  }

  lemma {:induction false} InsertSorted(x: PlantSpec, s: seq<PlantSpec>)
    requires SortedByKey(s)
    ensures SortedByKey(Insert(x, s))
  {
    if s == [] || KeyLe(x, s[0]) {
    } else {
      InsertSorted(x, s[1..]);
      var t := Insert(x, s[1..]);
      forall j | 0 <= j < |t|
        ensures KeyLe(s[0], t[j])
      {
        assert t[j] in multiset(s[1..]) + multiset{x};
        if t[j] != x {
          assert t[j] in s[1..];
        }
      }
    }
  }

  lemma {:induction false} InsertStrict(x: PlantSpec, s: seq<PlantSpec>)
    requires SortedByKey(s) && StrictlyMeritOrdered(s)
    requires forall j :: 0 <= j < |s| ==> x.originalIndex < s[j].originalIndex
    ensures StrictlyMeritOrdered(Insert(x, s))
  {
    if s == [] || KeyLe(x, s[0]) {
    } else {
      InsertStrict(x, s[1..]);
      var t := Insert(x, s[1..]);
      forall j | 0 <= j < |t|
        ensures MeritBefore(s[0], t[j])
      {
        assert t[j] in multiset(s[1..]) + multiset{x};
        if t[j] != x {
          assert t[j] in s[1..];
        }
      }
    }
  }

  /** The merit order of `specs`: sorted by key, and a rearrangement of the input. */
  function SortSpecs(specs: seq<PlantSpec>): (sorted: seq<PlantSpec>)
    ensures multiset(sorted) == multiset(specs)
    ensures |sorted| == |specs|
    ensures SortedByKey(sorted)
  {
    if specs == [] then []
    else
      var rest := SortSpecs(specs[1..]);
      InsertSorted(specs[0], rest);
      assert specs == [specs[0]] + specs[1..];
      Insert(specs[0], rest)
  }

  /** Stability: when the request positions increase along the input (as
      they do for built specs), equal keys keep their request order, so the
      merit order is strict once the position breaks ties. */
  lemma {:induction false} SortSpecsStable(specs: seq<PlantSpec>)
    requires IndicesIncrease(specs)
    ensures StrictlyMeritOrdered(SortSpecs(specs))
  {
    if specs != [] {
      SortSpecsStable(specs[1..]);
      var rest := SortSpecs(specs[1..]);
      forall j | 0 <= j < |rest|
        ensures specs[0].originalIndex < rest[j].originalIndex
      {
        assert rest[j] in multiset(specs[1..]);
        assert rest[j] in specs[1..];
      }
      InsertStrict(specs[0], rest);
    }
  }
}
