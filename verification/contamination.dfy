/** The contamination filter engine, `ContaminationChecker.filter_bacteria`:
    match input rows against the curated species, compute each matched row's
    qualifying locations, drop rows with none, score the rest from the curated
    properties and the weights, and keep rows whose score reaches the threshold. */
module Contamination {
  import opened Results
  import opened Seqs
  import opened Locations
  import opened Scoring

  /** One input row: the `#Datasets` species name and its location cells
      (every column after the first, in column order). */
  datatype Row = Row(species: string, cells: seq<Cell>)

  /** The curated table: its property columns and, per curated `Species`, the
      property values. A property missing from a species' map is a null cell. */
  datatype Curated = Curated(columns: set<string>, entries: map<string, map<string, int>>)

  /** An output row: `Species`, `Num loc`, `Locations`. */
  datatype Located = Located(species: string, numLoc: nat, locations: seq<Cell>)

  /** The returned triple `(matching_rows, filtered_bacteria, thresh_rows)`. */
  datatype Report = Report(matchingRows: nat, filtered: seq<Located>, threshRows: nat)

  /** A weight names a property that is not a curated column: pandas' KeyError. */
  datatype EngineError = MissingColumns(properties: set<string>)

  /** Exact species match: no case folding and no trimming. */
  function Matches(curated: Curated): Row -> bool
  {
    (row: Row) => row.species in curated.entries
  }

  function Locate(row: Row, readsThreshold: int): (a: Located)
    ensures a.species == row.species
    ensures |a.locations| == a.numLoc
    ensures forall i :: 0 <= i < |a.locations| ==> a.locations[i].count > readsThreshold
  {
    LocationCount(row.cells, readsThreshold);
    Located(row.species, NumAbove(row.cells, readsThreshold), LocationsAbove(row.cells, readsThreshold))
  }

  function LocateAt(readsThreshold: int): Row -> Located
  {
    (row: Row) => Locate(row, readsThreshold)
  }

  /** The location filter: at least one location above the reads threshold. */
  predicate Detected(a: Located)
  {
    a.numLoc > 0
  }

  /** `Weight Score` of a curated species; `None` when it is not curated or
      when a weighted property is null (NaN in pandas). */
  function SpeciesScore(curated: Curated, species: string, weights: seq<Weight>): Option<int>
  {
    if species in curated.entries then Score(curated.entries[species], weights) else None
  }

  /** `Weight Score >= score_threshold`; a NaN score never passes. */
  predicate MeetsScore(score: Option<int>, scoreThreshold: int)
  {
    score.Some? && score.value >= scoreThreshold
  }

  function PassesScore(curated: Curated, weights: seq<Weight>, scoreThreshold: int): Located -> bool
  {
    (a: Located) => MeetsScore(SpeciesScore(curated, a.species, weights), scoreThreshold)
  }

  /** Weighted properties that are not curated columns. */
  function MissingProperties(curated: Curated, weights: seq<Weight>): set<string>
  {
    WeightKeys(weights) - curated.columns
  }

  /** The rows that reach the score step: matched and located at least once. */
  function Present(input: seq<Row>, curated: Curated, readsThreshold: int): seq<Located>
  {
    Filter(Detected, Map(LocateAt(readsThreshold), Filter(Matches(curated), input)))
  }

  function FilterBacteria(input: seq<Row>, curated: Curated, weights: seq<Weight>,
                          scoreThreshold: int, readsThreshold: int): (r: Result<Report, EngineError>)
    ensures r.Failure? ==> r.error == MissingColumns(MissingProperties(curated, weights))
    ensures r.Success? ==> r.value.threshRows == |r.value.filtered| <= r.value.matchingRows
    ensures r.Success? ==> forall i :: 0 <= i < |r.value.filtered| ==>
              var a := r.value.filtered[i];
              && a.species in curated.entries
              && a.numLoc >= 1
              && |a.locations| == a.numLoc
              && (forall c :: c in a.locations ==> c.count > readsThreshold)
              && MeetsScore(SpeciesScore(curated, a.species, weights), scoreThreshold)
  {
    var matched := Filter(Matches(curated), input);
    var present := Present(input, curated, readsThreshold);
    var missing := MissingProperties(curated, weights);
    if present != [] && missing != {} then
      Failure(MissingColumns(missing))
    else
      var kept := Filter(PassesScore(curated, weights, scoreThreshold), present);
      assert forall i :: 0 <= i < |kept| ==> Detected(kept[i]) && kept[i] in Map(LocateAt(readsThreshold), matched) by {
        forall i | 0 <= i < |kept|
          ensures Detected(kept[i]) && kept[i] in Map(LocateAt(readsThreshold), matched)
        {
          FilterElements(PassesScore(curated, weights, scoreThreshold), present, kept[i]);
          FilterElements(Detected, Map(LocateAt(readsThreshold), matched), kept[i]);
        }
      }
      Success(Report(|matched|, kept, |kept|))
  }
}

/** Properties of the filter engine, stated row by row and across thresholds. */
module ContaminationProperties {
  import opened Results
  import opened Seqs
  import opened Locations
  import opened Scoring
  import opened Contamination

  /** A row reaches the score step: it is curated and has a location above the threshold. */
  function Reaches(curated: Curated, readsThreshold: int): Row -> bool
  {
    (row: Row) => row.species in curated.entries && NumAbove(row.cells, readsThreshold) > 0
  }

  /** A row is reported: it reaches the score step and its score meets the threshold. */
  function Keeps(curated: Curated, weights: seq<Weight>, scoreThreshold: int, readsThreshold: int): Row -> bool
  {
    (row: Row) =>
      && row.species in curated.entries
      && NumAbove(row.cells, readsThreshold) > 0
      && MeetsScore(SpeciesScore(curated, row.species, weights), scoreThreshold)
  }

  function RowSpecies(rows: seq<Row>): seq<string>
  {
    Map((row: Row) => row.species, rows)
  }

  function SpeciesOf(rows: seq<Located>): seq<string>
  {
    Map((a: Located) => a.species, rows)
  }

  /** The staged pipeline up to the location filter is one row-wise filter. */
  lemma PresentRowwise(input: seq<Row>, curated: Curated, readsThreshold: int)
    ensures Present(input, curated, readsThreshold)
         == Map(LocateAt(readsThreshold), Filter(Reaches(curated, readsThreshold), input))
  {
    var f := LocateAt(readsThreshold);
    var located := (row: Row) => Detected(Locate(row, readsThreshold));
    FilterMap(Detected, f, located, Filter(Matches(curated), input));
    FilterFilter(Matches(curated), located, Reaches(curated, readsThreshold), input);
  }

  /** The reported rows are exactly the input rows that pass all three tests,
      located, in input order. */
  lemma FilteredRowwise(input: seq<Row>, curated: Curated, weights: seq<Weight>,
                        scoreThreshold: int, readsThreshold: int)
    requires FilterBacteria(input, curated, weights, scoreThreshold, readsThreshold).Success?
    ensures FilterBacteria(input, curated, weights, scoreThreshold, readsThreshold).value.filtered
         == Map(LocateAt(readsThreshold), Filter(Keeps(curated, weights, scoreThreshold, readsThreshold), input))
  {
    PresentRowwise(input, curated, readsThreshold);
    var f := LocateAt(readsThreshold);
    var reached := Filter(Reaches(curated, readsThreshold), input);
    var scored := (row: Row) => PassesScore(curated, weights, scoreThreshold)(Locate(row, readsThreshold));
    FilterMap(PassesScore(curated, weights, scoreThreshold), f, scored, reached);
    FilterFilter(Reaches(curated, readsThreshold), scored, Keeps(curated, weights, scoreThreshold, readsThreshold), input);
  }

  /** `matching_rows` is the number of input positions whose species is curated. */
  lemma MatchingRowsCount(input: seq<Row>, curated: Curated, weights: seq<Weight>,
                          scoreThreshold: int, readsThreshold: int)
    requires FilterBacteria(input, curated, weights, scoreThreshold, readsThreshold).Success?
    ensures FilterBacteria(input, curated, weights, scoreThreshold, readsThreshold).value.matchingRows
         == Count(Matches(curated), input)
  {
    FilterCount(Matches(curated), input);
  }

  /** The engine fails exactly when a weighted property is not a curated column
      and some row reaches the score step. */
  lemma FailsExactly(input: seq<Row>, curated: Curated, weights: seq<Weight>,
                     scoreThreshold: int, readsThreshold: int)
    ensures FilterBacteria(input, curated, weights, scoreThreshold, readsThreshold).Failure?
        <==> (&& MissingProperties(curated, weights) != {}
              && exists i :: 0 <= i < |input| && input[i].species in curated.entries
                                             && NumAbove(input[i].cells, readsThreshold) > 0)
  {
    PresentRowwise(input, curated, readsThreshold);
    var reached := Filter(Reaches(curated, readsThreshold), input);
    assert Present(input, curated, readsThreshold) != [] <==> reached != [];
    if exists i :: 0 <= i < |input| && input[i].species in curated.entries
                                    && NumAbove(input[i].cells, readsThreshold) > 0 {
      var i :| 0 <= i < |input| && input[i].species in curated.entries
                                && NumAbove(input[i].cells, readsThreshold) > 0;
      assert Reaches(curated, readsThreshold)(input[i]);
      FilterKeeps(Reaches(curated, readsThreshold), input, input[i]);
    } else if reached != [] {
      FilterElements(Reaches(curated, readsThreshold), input, reached[0]);
    }
  }

  /** Output rows appear in input order. */
  lemma OutputKeepsInputOrder(input: seq<Row>, curated: Curated, weights: seq<Weight>,
                              scoreThreshold: int, readsThreshold: int)
    requires FilterBacteria(input, curated, weights, scoreThreshold, readsThreshold).Success?
    ensures IsSubseq(SpeciesOf(FilterBacteria(input, curated, weights, scoreThreshold, readsThreshold).value.filtered),
                     RowSpecies(input))
  {
    var kept := Filter(Keeps(curated, weights, scoreThreshold, readsThreshold), input);
    FilteredRowwise(input, curated, weights, scoreThreshold, readsThreshold);
    SpeciesOfLocated(kept, readsThreshold);
    FilterIsSubseq(Keeps(curated, weights, scoreThreshold, readsThreshold), input);
    MapSubseq((row: Row) => row.species, kept, input);
  }

  /** Locating rows does not change their species. */
  lemma SpeciesOfLocated(rows: seq<Row>, readsThreshold: int)
    ensures SpeciesOf(Map(LocateAt(readsThreshold), rows)) == RowSpecies(rows)
  {
    MapCompose((a: Located) => a.species, LocateAt(readsThreshold), (row: Row) => row.species, rows);
  }

  /** Raising the reads threshold or the score threshold, all else fixed,
      never adds an output row and never turns success into failure. */
  lemma RaisingThresholds(input: seq<Row>, curated: Curated, weights: seq<Weight>,
                          scoreThreshold: int, readsThreshold: int, higherScore: int, higherReads: int)
    requires scoreThreshold <= higherScore && readsThreshold <= higherReads
    requires FilterBacteria(input, curated, weights, scoreThreshold, readsThreshold).Success?
    ensures FilterBacteria(input, curated, weights, higherScore, higherReads).Success?
    ensures IsSubseq(SpeciesOf(FilterBacteria(input, curated, weights, higherScore, higherReads).value.filtered),
                     SpeciesOf(FilterBacteria(input, curated, weights, scoreThreshold, readsThreshold).value.filtered))
    ensures FilterBacteria(input, curated, weights, higherScore, higherReads).value.threshRows
         <= FilterBacteria(input, curated, weights, scoreThreshold, readsThreshold).value.threshRows
  {
    forall row: Row
      ensures NumAbove(row.cells, higherReads) <= NumAbove(row.cells, readsThreshold)
    {
      RaisingReadsThreshold(row.cells, readsThreshold, higherReads);
    }
    FailsExactly(input, curated, weights, scoreThreshold, readsThreshold);
    FailsExactly(input, curated, weights, higherScore, higherReads);
    var low := Keeps(curated, weights, scoreThreshold, readsThreshold);
    var high := Keeps(curated, weights, higherScore, higherReads);
    FilteredRowwise(input, curated, weights, scoreThreshold, readsThreshold);
    FilteredRowwise(input, curated, weights, higherScore, higherReads);
    SpeciesOfLocated(Filter(low, input), readsThreshold);
    SpeciesOfLocated(Filter(high, input), higherReads);
    FilterWeaker(low, high, input);
    MapSubseq((row: Row) => row.species, Filter(high, input), Filter(low, input));
    SubseqLength(RowSpecies(Filter(high, input)), RowSpecies(Filter(low, input)));
  }
}

/** A two-row run of the engine, worked through. */
module ContaminationExample {
  import opened Results
  import opened Locations
  import opened Scoring
  import opened Contamination
  import Seqs

  /** Species `A` has no location above 1000 reads and is dropped whatever its
      score; `B` is reported with both locations. */
  lemma TwoSpecies()
    ensures FilterBacteria(
              [Row("A", [Cell("loc2", 150), Cell("loc3", 0)]), Row("B", [Cell("loc2", 2500), Cell("loc3", 3000)])],
              Curated({"p1"}, map["A" := map["p1" := 1], "B" := map["p1" := 1]]),
              [Weight("p1", 1)], 1, 1000)
         == Success(Report(2, [Located("B", 2, [Cell("loc2", 2500), Cell("loc3", 3000)])], 1))
  {
    var a := [Cell("loc2", 150), Cell("loc3", 0)];
    var b := [Cell("loc2", 2500), Cell("loc3", 3000)];
    LocationCount(a, 1000);
    LocationCount(b, 1000);
    assert LocationsAbove(a, 1000) == [];
    assert LocationsAbove(b, 1000) == b;
    var input := [Row("A", a), Row("B", b)];
    var curated := Curated({"p1"}, map["A" := map["p1" := 1], "B" := map["p1" := 1]]);
    var weights := [Weight("p1", 1)];
    var matched := Seqs.Filter(Matches(curated), input);
    assert matched == input by {
      assert Matches(curated)(input[0]) && Matches(curated)(input[1]);
      assert input[1..] == [Row("B", b)];
      assert [Row("B", b)][1..] == [];
      assert Seqs.Filter(Matches(curated), [Row("B", b)]) == [Row("B", b)];
    }
    var located := Seqs.Map(LocateAt(1000), matched);
    assert located == [Located("A", 0, []), Located("B", 2, b)];
    var present := Present(input, curated, 1000);
    assert present == [Located("B", 2, b)] by {
      assert !Detected(located[0]) && Detected(located[1]);
      assert located[1..] == [Located("B", 2, b)];
      assert [Located("B", 2, b)][1..] == [];
      assert Seqs.Filter(Detected, [Located("B", 2, b)]) == [Located("B", 2, b)];
    }
    assert Score(map["p1" := 1], weights) == Some(1);
    assert Seqs.Filter(PassesScore(curated, weights, 1), present) == present;
  }
}
