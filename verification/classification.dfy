/**
  The quartile classifier: each nucleus, given as a (label, mean intensity)
  pair, is put into one of four ordinal groups according to where its
  intensity falls relative to the 25th, 50th and 75th percentiles of all
  intensities. Upper bounds of the groups are inclusive, and when a label
  occurs more than once the dictionary keeps the group of its last
  occurrence.
 */
module Classification {
  import opened Quantiles

  /** One entry of the intensity list: a region label and its mean intensity. */
  datatype Measurement = Measurement(labelId: int, intensity: real)

  /** The three cut points Q1 <= Q2 <= Q3. */
  datatype Quartiles = Quartiles(q1: real, q2: real, q3: real)

  /** The quantile of an empty array is undefined: NumPy raises. */
  datatype ClassifyError = EmptyStatistics

  datatype Result<T> = Ok(value: T) | Err(error: ClassifyError)

  /** Group ids are 0, 1, 2 and 3. */
  type Group = g: nat | g <= 3

  /** Label -> group, the dictionary the classifier returns. */
  type Classification = map<int, Group>

  /** The intensity column of the list, in order. */
  function Intensities(ms: seq<Measurement>): (vs: seq<real>)
    ensures |vs| == |ms|
    ensures forall i :: 0 <= i < |ms| ==> vs[i] == ms[i].intensity
  {
    seq(|ms|, i requires 0 <= i < |ms| => ms[i].intensity)
  }

  /** The set of labels in the list. */
  function LabelSet(ms: seq<Measurement>): (ls: set<int>)
    ensures forall i :: 0 <= i < |ms| ==> ms[i].labelId in ls
    ensures forall l :: l in ls ==> exists i :: 0 <= i < |ms| && ms[i].labelId == l
  {
    if |ms| == 0 then {}
    else
      var init := ms[..|ms| - 1];
      assert forall i :: 0 <= i < |init| ==> init[i] == ms[i];
      LabelSet(init) + {ms[|ms| - 1].labelId}
  }

  /** Entry `i` is the last one carrying its label. */
  predicate IsLastOccurrence(ms: seq<Measurement>, i: int)
    requires 0 <= i < |ms|
  {
    forall j :: i < j < |ms| ==> ms[j].labelId != ms[i].labelId
  }

  /** `np.quantile(values, [0.25, 0.5, 0.75])`. */
  function ComputeQuartiles(values: seq<real>): (q: Quartiles)
    requires |values| > 0
    ensures Min(values) <= q.q1 <= q.q2 <= q.q3 <= Max(values)
  {
    QuantileMonotone(values, 0.25, 0.5);
    QuantileMonotone(values, 0.5, 0.75);
    Quartiles(Quantile(values, 0.25), Quantile(values, 0.5), Quantile(values, 0.75))
  }

  /** The if-chain of the loop body: the first quartile the intensity does not exceed. */
  function GroupOf(v: real, q: Quartiles): (g: Group)
    requires q.q1 <= q.q2 <= q.q3
    ensures g == 0 <==> v <= q.q1
    ensures g == 1 <==> q.q1 < v <= q.q2
    ensures g == 2 <==> q.q2 < v <= q.q3
    ensures g == 3 <==> q.q3 < v
  {
    if v <= q.q1 then 0
    else if v <= q.q2 then 1
    else if v <= q.q3 then 2
    else 3
  }

  /**
    The loop over the list: each entry in turn stores its group under its
    label, overwriting any earlier entry with the same label.
   */
  function AssignGroups(ms: seq<Measurement>, q: Quartiles): (c: Classification)
    requires q.q1 <= q.q2 <= q.q3
    ensures forall i :: 0 <= i < |ms| ==> ms[i].labelId in c
    ensures forall i :: 0 <= i < |ms| && IsLastOccurrence(ms, i) ==>
              ms[i].labelId in c && c[ms[i].labelId] == GroupOf(ms[i].intensity, q)
  {
    if |ms| == 0 then map[]
    else
      var init := ms[..|ms| - 1];
      var c0 := AssignGroups(init, q);
      AssignStep(ms, init, q, c0);
      c0[ms[|ms| - 1].labelId := GroupOf(ms[|ms| - 1].intensity, q)]
  }

  /** One iteration of the loop: storing the last entry keeps every earlier last occurrence intact. */
  lemma AssignStep(ms: seq<Measurement>, init: seq<Measurement>, q: Quartiles, c0: Classification)
    requires q.q1 <= q.q2 <= q.q3
    requires |ms| > 0 && init == ms[..|ms| - 1]
    requires forall i :: 0 <= i < |init| ==> init[i].labelId in c0
    requires forall i :: 0 <= i < |init| && IsLastOccurrence(init, i) ==>
               init[i].labelId in c0 && c0[init[i].labelId] == GroupOf(init[i].intensity, q)
    ensures
      var c := c0[ms[|ms| - 1].labelId := GroupOf(ms[|ms| - 1].intensity, q)];
      && (forall i :: 0 <= i < |ms| ==> ms[i].labelId in c)
      && (forall i :: 0 <= i < |ms| && IsLastOccurrence(ms, i) ==>
            ms[i].labelId in c && c[ms[i].labelId] == GroupOf(ms[i].intensity, q))
  {
    var c := c0[ms[|ms| - 1].labelId := GroupOf(ms[|ms| - 1].intensity, q)];
    forall i | 0 <= i < |ms|
      ensures ms[i].labelId in c
    {
      if i < |init| {
        assert ms[i] == init[i];
      }
    }
    forall i | 0 <= i < |ms| && IsLastOccurrence(ms, i)
      ensures ms[i].labelId in c && c[ms[i].labelId] == GroupOf(ms[i].intensity, q)
    {
      if i < |init| {
        assert ms[i] == init[i];
        assert ms[i].labelId != ms[|ms| - 1].labelId;
        assert IsLastOccurrence(init, i);
      }
    }
  }

  /** The dictionary has exactly one key per distinct label of the list. */
  lemma {:induction false} AssignGroupsDomain(ms: seq<Measurement>, q: Quartiles)
    requires q.q1 <= q.q2 <= q.q3
    ensures AssignGroups(ms, q).Keys == LabelSet(ms)
  {
    if |ms| > 0 {
      AssignGroupsDomain(ms[..|ms| - 1], q);
    }
  }

  /** `classify_intensities`: quartiles over all intensities, then the grouping loop. */
  function ClassifyIntensities(ms: seq<Measurement>): (r: Result<Classification>)
    ensures r.Err? <==> |ms| == 0
    ensures r.Ok? ==> r.value.Keys == LabelSet(ms)
  {
    if |ms| == 0 then Err(EmptyStatistics)
    else
      var q := ComputeQuartiles(Intensities(ms));
      AssignGroupsDomain(ms, q);
      Ok(AssignGroups(ms, q))
  }

  /**
    The same classification, except that an empty list yields an empty
    dictionary ("zero nuclei found") instead of the error NumPy raises.
   */
  function ClassifyOrEmpty(ms: seq<Measurement>): (c: Classification)
    ensures c.Keys == LabelSet(ms)
    ensures |ms| > 0 ==> ClassifyIntensities(ms) == Ok(c)
  {
    match ClassifyIntensities(ms)
    case Ok(c) => c
    case Err(_) => map[]
  }

  /** An empty intensity list makes the classifier fail, where the corrected one reports no nuclei. */
  lemma EmptyListRaises()
    ensures ClassifyIntensities([]) == Err(EmptyStatistics)
    ensures ClassifyOrEmpty([]) == map[]
  {
  }

  /**
    Every label gets the group of its last entry, and that group is the
    interval of the quartile partition its intensity falls into.
   */
  lemma ClassifyBoundaries(ms: seq<Measurement>, i: int)
    requires 0 <= i < |ms| && IsLastOccurrence(ms, i)
    ensures ClassifyIntensities(ms).Ok?
    ensures
      var q := ComputeQuartiles(Intensities(ms));
      var v := ms[i].intensity;
      var g := ClassifyIntensities(ms).value[ms[i].labelId];
      && (g == 0 <==> v <= q.q1)
      && (g == 1 <==> q.q1 < v <= q.q2)
      && (g == 2 <==> q.q2 < v <= q.q3)
      && (g == 3 <==> q.q3 < v)
  {
  }

  /** A nucleus at least as bright as another is never put in a lower group; equal intensities share a group. */
  lemma ClassifyMonotone(ms: seq<Measurement>, a: int, b: int)
    requires 0 <= a < |ms| && IsLastOccurrence(ms, a)
    requires 0 <= b < |ms| && IsLastOccurrence(ms, b)
    ensures ClassifyIntensities(ms).Ok?
    ensures ms[a].intensity <= ms[b].intensity ==>
              ClassifyIntensities(ms).value[ms[a].labelId] <= ClassifyIntensities(ms).value[ms[b].labelId]
    ensures ms[a].intensity == ms[b].intensity ==>
              ClassifyIntensities(ms).value[ms[a].labelId] == ClassifyIntensities(ms).value[ms[b].labelId]
  {
    ClassifyBoundaries(ms, a);
    ClassifyBoundaries(ms, b);
  }

  /** The dimmest nucleus is always in group 0, since Q1 is at least the minimum. */
  lemma DimmestInGroupZero(ms: seq<Measurement>, i: int)
    requires 0 <= i < |ms| && IsLastOccurrence(ms, i)
    requires forall j :: 0 <= j < |ms| ==> ms[i].intensity <= ms[j].intensity
    ensures ClassifyIntensities(ms).Ok?
    ensures ClassifyIntensities(ms).value[ms[i].labelId] == 0
  {
    var vs := Intensities(ms);
    assert Min(vs) == ms[i].intensity by {
      var k :| 0 <= k < |vs| && vs[k] == Min(vs);
    }
    ClassifyBoundaries(ms, i);
  }

  /** Reordering the list does not move the cut points: only the multiset of intensities matters. */
  lemma QuartilesOrderIndependent(a: seq<Measurement>, b: seq<Measurement>)
    requires |a| > 0
    requires multiset(Intensities(a)) == multiset(Intensities(b))
    ensures |b| > 0
    ensures ComputeQuartiles(Intensities(a)) == ComputeQuartiles(Intensities(b))
  {
    QuantileOrderIndependent(Intensities(a), Intensities(b), 0.25);
    QuantileOrderIndependent(Intensities(a), Intensities(b), 0.5);
    QuantileOrderIndependent(Intensities(a), Intensities(b), 0.75);
  }

  /** When every nucleus has the same intensity, all quartiles coincide with it and every label is in group 0. */
  lemma UniformIntensitiesAllGroupZero(ms: seq<Measurement>, v: real, i: int)
    requires 0 <= i < |ms| && IsLastOccurrence(ms, i)
    requires forall j :: 0 <= j < |ms| ==> ms[j].intensity == v
    ensures ClassifyIntensities(ms).Ok?
    ensures ClassifyIntensities(ms).value[ms[i].labelId] == 0
  {
    DimmestInGroupZero(ms, i);
  }

  /** For values already in order, the cut points are read directly off them. */
  lemma SortedQuartiles(vs: seq<real>)
    requires |vs| > 0 && Sorted(vs)
    ensures ComputeQuartiles(vs) ==
              Quartiles(SortedQuantile(vs, 0.25), SortedQuantile(vs, 0.5), SortedQuantile(vs, 0.75))
  {
    SortedInputQuantile(vs, 0.25);
    SortedInputQuantile(vs, 0.5);
    SortedInputQuantile(vs, 0.75);
  }

  /** For four sorted intensities a <= b <= c <= d the quartiles are a + 3(b - a)/4, b + (c - b)/2 and c + (d - c)/4. */
  lemma QuartilesOfFour(vs: seq<real>)
    requires |vs| == 4 && Sorted(vs)
    ensures ComputeQuartiles(vs) ==
              Quartiles(vs[0] + 0.75 * (vs[1] - vs[0]), vs[1] + 0.5 * (vs[2] - vs[1]), vs[2] + 0.25 * (vs[3] - vs[2]))
  {
    SortedQuartiles(vs);
    InterpolateFour(vs);
  }

  /** The three interpolations for four sorted values, each strictly between two order statistics. */
  lemma InterpolateFour(vs: seq<real>)
    requires |vs| == 4 && Sorted(vs)
    ensures SortedQuantile(vs, 0.25) == vs[0] + 0.75 * (vs[1] - vs[0])
    ensures SortedQuantile(vs, 0.5) == vs[1] + 0.5 * (vs[2] - vs[1])
    ensures SortedQuantile(vs, 0.75) == vs[2] + 0.25 * (vs[3] - vs[2])
  {
    InterpolateAt(vs, 0.25, 0, 0.75);
    InterpolateAt(vs, 0.5, 1, 0.5);
    InterpolateAt(vs, 0.75, 2, 0.25);
  }

  /** Four nuclei with intensities 10, 20, 30, 40 have quartiles 17.5, 25 and 32.5. */
  lemma FourNucleiQuartiles(ms: seq<Measurement>)
    requires ms == [Measurement(1, 10.0), Measurement(2, 20.0), Measurement(3, 30.0), Measurement(4, 40.0)]
    ensures ComputeQuartiles(Intensities(ms)) == Quartiles(17.5, 25.0, 32.5)
  {
    var vs := Intensities(ms);
    assert vs[0] == 10.0 && vs[1] == 20.0 && vs[2] == 30.0 && vs[3] == 40.0;
    QuartilesOfFour(vs);
  }

  /** With those quartiles the four nuclei land in groups 0, 1, 2, 3, one label per group. */
  lemma FourNucleiExample(ms: seq<Measurement>)
    requires ms == [Measurement(1, 10.0), Measurement(2, 20.0), Measurement(3, 30.0), Measurement(4, 40.0)]
    ensures ClassifyIntensities(ms) == Ok(map[1 := 0, 2 := 1, 3 := 2, 4 := 3])
  {
    FourNucleiQuartiles(ms);
    FourNucleiGroups(ms, ComputeQuartiles(Intensities(ms)));
  }

  /** The grouping loop alone, for the four nuclei and the quartiles 17.5, 25, 32.5. */
  lemma FourNucleiGroups(ms: seq<Measurement>, q: Quartiles)
    requires ms == [Measurement(1, 10.0), Measurement(2, 20.0), Measurement(3, 30.0), Measurement(4, 40.0)]
    requires q == Quartiles(17.5, 25.0, 32.5)
    ensures AssignGroups(ms, q) == map[1 := 0, 2 := 1, 3 := 2, 4 := 3]
  {
    assert IsLastOccurrence(ms, 0) && IsLastOccurrence(ms, 1);
    assert IsLastOccurrence(ms, 2) && IsLastOccurrence(ms, 3);
    var c := AssignGroups(ms, q);
    assert c.Keys == {1, 2, 3, 4} by {
      AssignGroupsDomain(ms, q);
      assert LabelSet(ms) <= {1, 2, 3, 4};
      assert ms[0].labelId == 1 && ms[1].labelId == 2 && ms[2].labelId == 3 && ms[3].labelId == 4;
    }
    assert c[1] == 0 && c[2] == 1 && c[3] == 2 && c[4] == 3;
    var expected: Classification := map[1 := 0, 2 := 1, 3 := 2, 4 := 3];
    assert expected.Keys == {1, 2, 3, 4};
    assert forall k :: k in c ==> c[k] == expected[k];
    assert c == expected;
  }
}
