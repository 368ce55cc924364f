/** The older helper module: generation listing without the last-generation
    check, the inverted health test, and the scans for the best and the
    worst value of one measure. Its range check, clamped minimum and
    maximum, best individual per generation and gene count are the ones of
    the evolution module. */
module Utils {

  import opened Wrappers
  import opened Py
  import opened Seqs
  import Evolution

  // ---------------------------------------------------------- get_generations

  /** `get_generations` after the listing: the numbers sorted, every
      generation kept. */
  function GetGenerations(dirs: seq<string>, asInt: bool): Result<Evolution.Generations>
  {
    var ns :- Evolution.GenerationNumbers(dirs);
    Ok(Evolution.Shaped(Sort(ns), asInt))
  }

  /** The numbers are the parsed ones in ascending order; the evolution
      module's listing agrees whenever the last generation is finished, and
      otherwise lacks only the last number. An empty run lists nothing here
      but fails there. */
  lemma GetGenerationsSpec(dirs: seq<string>, lastResults: seq<(string, Evolution.IndResult)>, asInt: bool)
    ensures GetGenerations(dirs, asInt).Ok? <==> Evolution.GenerationNumbers(dirs).Ok?
    ensures GetGenerations(dirs, true).Ok? ==>
      var out := GetGenerations(dirs, true).value.numbers;
      Sorted(out) && multiset(out) == multiset(Evolution.GenerationNumbers(dirs).value)
    ensures |dirs| == 0 ==> GetGenerations(dirs, asInt) == Ok(Evolution.Shaped([], asInt))
    ensures Evolution.GetGenerations(dirs, lastResults, asInt).Ok? && Evolution.TakeLast(lastResults) == Ok(true) ==>
      Evolution.GetGenerations(dirs, lastResults, asInt) == GetGenerations(dirs, asInt)
    ensures Evolution.GetGenerations(dirs, lastResults, true).Ok? && Evolution.TakeLast(lastResults) == Ok(false) ==>
      var all := GetGenerations(dirs, true).value.numbers;
      Evolution.GetGenerations(dirs, lastResults, true).value.numbers == all[..|all| - 1]
  {
    if Evolution.GenerationNumbers(dirs).Ok? {
      SortSpec(Evolution.GenerationNumbers(dirs).value);
    }
    if |dirs| == 0 {
      AllOkSpec(Evolution.NumberResults(dirs));
      assert Evolution.GenerationNumbers(dirs) == Ok([]);
    }
  }

  // ------------------------------------------ get_healthy_individuals_results

  /** The health test of this module, inverted against the evolution
      module's: `error == "False"` is unhealthy and `error == "True"` healthy;
      only these two strings count, and a missing `error` is a KeyError. */
  function InvertedFlag(result: Evolution.IndResult): Result<Evolution.Health>
  {
    if result.None? then Err(TypeError)
    else if !HasKey(result.value, "error") then Err(KeyError("error"))
    else
      var v := Lookup(result.value, "error").value;
      if v == Str("False") then Ok(Evolution.Unhealthy)
      else if v == Str("True") then Ok(Evolution.Healthy)
      else Ok(Evolution.Neither)
  }

  /** `get_healthy_individuals_results` of this module. */
  method HealthyIndividualsResults(gens: Evolution.GenResults, asGenerationDict: bool) returns (r: Result<Evolution.HealthView>)
    ensures r == Evolution.HealthyIndividuals(gens, InvertedFlag, asGenerationDict)
  {
    r := Evolution.PartitionResults(gens, InvertedFlag, asGenerationDict);
  }

  /** The inverted test read back, and its disagreement with the evolution
      module: the strings swap sides, booleans land in neither, and a
      result without `error` fails here but is healthy there. */
  lemma InvertedFlagSpec(fields: Evolution.Fields)
    ensures InvertedFlag(Some(fields)) == Ok(Evolution.Healthy) <==> Lookup(fields, "error") == Some(Str("True"))
    ensures InvertedFlag(Some(fields)) == Ok(Evolution.Unhealthy) <==> Lookup(fields, "error") == Some(Str("False"))
    ensures !HasKey(fields, "error") ==>
      InvertedFlag(Some(fields)) == Err(KeyError("error")) && Evolution.ErrorFlag(Some(fields)) == Ok(Evolution.Healthy)
    ensures Lookup(fields, "error") == Some(Str("False")) ==>
      Evolution.ErrorFlag(Some(fields)) == Ok(Evolution.Healthy) && InvertedFlag(Some(fields)) == Ok(Evolution.Unhealthy)
    ensures Lookup(fields, "error") == Some(Str("True")) ==>
      Evolution.ErrorFlag(Some(fields)) == Ok(Evolution.Unhealthy) && InvertedFlag(Some(fields)) == Ok(Evolution.Healthy)
    ensures Lookup(fields, "error") == Some(Bool(true)) ==> InvertedFlag(Some(fields)) == Ok(Evolution.Neither)
  {
  }

  /** The lists exist exactly when every individual has a results file with
      an `error` key. */
  lemma HealthyListsOk(gens: Evolution.GenResults)
    ensures Evolution.HealthyIndividuals(gens, InvertedFlag, false).Ok? <==>
      forall g, i :: 0 <= g < |gens| && 0 <= i < |gens[g].1| ==>
        gens[g].1[i].1.Some? && HasKey(gens[g].1[i].1.value, "error")
  {
    Evolution.HealthyListsSpec(gens, InvertedFlag);
  }

  // ------------------------------ get_individuals_best_result / worst_result

  /** The measures the scans accept. */
  const AvailableMeasures := ["val_acc", "memory_footprint_h5", "memory_footprint_tflite", "memory_footprint_c_array",
                              "inference_time", "energy_consumption", "mean_power_consumption", "fitness"]

  /** Accuracy and fitness are better when larger; the other measures when
      smaller. */
  predicate Maximised(measure: string)
  {
    measure == "val_acc" || measure == "fitness"
  }

  /** `v` is at least as good as `w` in the direction of the scan. */
  predicate AtLeast(v: real, w: real, upward: bool)
  {
    if upward then v >= w else v <= w
  }

  /** `result[measure]` when it is present and its type is exactly int or
      float. */
  function MeasureOf(result: Evolution.Fields, measure: string): Option<real>
  {
    if !HasKey(result, measure) then None
    else
      var v := Lookup(result, measure).value;
      if IsExactNumber(v) then Some(NumValue(v)) else None
  }

  /** The scan state: generation, individual and value found so far. */
  datatype Found = Found(generation: Option<int>, individual: Option<string>, value: real)

  /** The inner loop over one generation, continuing from `acc`: a value
      strictly better than the current one replaces it. `measure in result`
      fails on an individual without results. */
  function ScanGeneration(acc: Found, gen: int, inds: seq<(string, Evolution.IndResult)>, measure: string, upward: bool): Result<Found>
    decreases |inds|
  {
    if |inds| == 0 then Ok(acc)
    else
      var cur :- ScanGeneration(acc, gen, inds[..|inds| - 1], measure, upward);
      var entry := inds[|inds| - 1];
      if entry.1.None? then Err(TypeError)
      else match MeasureOf(entry.1.value, measure)
        case Some(v) => if !AtLeast(cur.value, v, upward) then Ok(Found(Some(gen), Some(entry.0), v)) else Ok(cur)
        case None => Ok(cur)
  }

  /** The outer loop over the generations, from the sentinel. */
  function Scan(gens: Evolution.GenResults, measure: string, upward: bool, start: real): Result<Found>
    decreases |gens|
  {
    if |gens| == 0 then Ok(Found(None, None, start))
    else
      var cur :- Scan(gens[..|gens| - 1], measure, upward, start);
      ScanGeneration(cur, gens[|gens| - 1].0, gens[|gens| - 1].1, measure, upward)
  }

  /** `get_individuals_best_result`: from 0 upwards for accuracy and
      fitness, from 100000000 downwards otherwise. */
  function BestResult(gens: Evolution.GenResults, measure: string): Result<Found>
  {
    if measure !in AvailableMeasures then Err(AssertionError)
    else if Maximised(measure) then Scan(gens, measure, true, 0.0)
    else Scan(gens, measure, false, 100000000.0)
  }

  /** `get_individuals_worst_result`: from 1 downwards for accuracy and
      fitness, from 0 upwards otherwise. */
  function WorstResult(gens: Evolution.GenResults, measure: string): Result<Found>
  {
    if measure !in AvailableMeasures then Err(AssertionError)
    else if Maximised(measure) then Scan(gens, measure, false, 1.0)
    else Scan(gens, measure, true, 0.0)
  }

  lemma {:induction false} ScanGenerationPrefixErr(acc: Found, gen: int, inds: seq<(string, Evolution.IndResult)>, measure: string, upward: bool, k: nat)
    requires k <= |inds| && ScanGeneration(acc, gen, inds[..k], measure, upward).Err?
    ensures ScanGeneration(acc, gen, inds, measure, upward) == ScanGeneration(acc, gen, inds[..k], measure, upward)
    decreases |inds|
  {
    if k < |inds| {
      assert inds[..|inds| - 1][..k] == inds[..k];
      ScanGenerationPrefixErr(acc, gen, inds[..|inds| - 1], measure, upward, k);
    } else {
      assert inds[..k] == inds;
    }
  }

  lemma {:induction false} ScanPrefixErr(gens: Evolution.GenResults, measure: string, upward: bool, start: real, k: nat)
    requires k <= |gens| && Scan(gens[..k], measure, upward, start).Err?
    ensures Scan(gens, measure, upward, start) == Scan(gens[..k], measure, upward, start)
    decreases |gens|
  {
    if k < |gens| {
      assert gens[..|gens| - 1][..k] == gens[..k];
      ScanPrefixErr(gens[..|gens| - 1], measure, upward, start, k);
    } else {
      assert gens[..k] == gens;
    }
  }

  /** The inner loop of the scans. */
  method ScanGenerationOf(acc: Found, gen: int, inds: seq<(string, Evolution.IndResult)>, measure: string, upward: bool)
    returns (r: Result<Found>)
    ensures r == ScanGeneration(acc, gen, inds, measure, upward)
  {
    var generation, individual, value := acc.generation, acc.individual, acc.value;
    for i := 0 to |inds|
      invariant ScanGeneration(acc, gen, inds[..i], measure, upward) == Ok(Found(generation, individual, value))
    {
      assert inds[..i + 1][..i] == inds[..i];
      var (ind, result) := inds[i];
      if result.None? {
        ScanGenerationPrefixErr(acc, gen, inds, measure, upward, i + 1);
        return Err(TypeError);
      }
      if HasKey(result.value, measure) {
        var val := Lookup(result.value, measure).value;
        if IsExactNumber(val) {
          var v := NumValue(val);
          if v < value && !upward {
            generation, individual, value := Some(gen), Some(ind), v;
          }
          if v > value && upward {
            generation, individual, value := Some(gen), Some(ind), v;
          }
        }
      }
    }
    assert inds[..|inds|] == inds;
    return Ok(Found(generation, individual, value));
  }

  /** The nested loops of the scans. */
  method ScanResults(gens: Evolution.GenResults, measure: string, upward: bool, start: real) returns (r: Result<Found>)
    ensures r == Scan(gens, measure, upward, start)
  {
    var found := Found(None, None, start);
    for g := 0 to |gens|
      invariant Scan(gens[..g], measure, upward, start) == Ok(found)
    {
      assert gens[..g + 1][..g] == gens[..g];
      var next := ScanGenerationOf(found, gens[g].0, gens[g].1, measure, upward);
      if next.Err? {
        ScanPrefixErr(gens, measure, upward, start, g + 1);
        return next;
      }
      found := next.value;
    }
    assert gens[..|gens|] == gens;
    return Ok(found);
  }

  method GetIndividualsBestResult(gens: Evolution.GenResults, measure: string) returns (r: Result<Found>)
    ensures r == BestResult(gens, measure)
  {
    if measure !in AvailableMeasures {
      return Err(AssertionError);
    }
    var start := if Maximised(measure) then 0.0 else 100000000.0;
    r := ScanResults(gens, measure, Maximised(measure), start);
  }

  method GetIndividualsWorstResult(gens: Evolution.GenResults, measure: string) returns (r: Result<Found>)
    ensures r == WorstResult(gens, measure)
  {
    if measure !in AvailableMeasures {
      return Err(AssertionError);
    }
    var start := if Maximised(measure) then 1.0 else 0.0;
    r := ScanResults(gens, measure, !Maximised(measure), start);
  }

  /** The value `MeasureOf` gives the individual at position `b` of
      generation `a`, named by generation and individual. */
  predicate FoundAt(gens: Evolution.GenResults, a: int, b: int, f: Found, measure: string)
  {
    && 0 <= a < |gens| && 0 <= b < |gens[a].1|
    && gens[a].1[b].1.Some?
    && f.generation == Some(gens[a].0) && f.individual == Some(gens[a].1[b].0)
    && MeasureOf(gens[a].1[b].1.value, measure) == Some(f.value)
  }

  /** One generation: the scan succeeds exactly when every individual has
      results; the value found is at least as good as the one it started
      from and as every value of the generation, and it is either the one it
      started from or a strictly better value of the generation. */
  lemma {:induction false} ScanGenerationSpec(acc: Found, gen: int, inds: seq<(string, Evolution.IndResult)>, measure: string, upward: bool)
    ensures ScanGeneration(acc, gen, inds, measure, upward).Ok? <==> forall j :: 0 <= j < |inds| ==> inds[j].1.Some?
    ensures ScanGeneration(acc, gen, inds, measure, upward).Ok? ==>
      var out := ScanGeneration(acc, gen, inds, measure, upward).value;
      && AtLeast(out.value, acc.value, upward)
      && (forall j :: 0 <= j < |inds| && MeasureOf(inds[j].1.value, measure).Some? ==>
            AtLeast(out.value, MeasureOf(inds[j].1.value, measure).value, upward))
      && (out == acc ||
          (!AtLeast(acc.value, out.value, upward) &&
           exists j :: 0 <= j < |inds| && out.generation == Some(gen) && out.individual == Some(inds[j].0)
             && MeasureOf(inds[j].1.value, measure) == Some(out.value)))
    decreases |inds|
  {
    if |inds| > 0 {
      var init := inds[..|inds| - 1];
      ScanGenerationSpec(acc, gen, init, measure, upward);
      assert forall j :: 0 <= j < |init| ==> init[j] == inds[j];
      var r := ScanGeneration(acc, gen, inds, measure, upward);
      if r.Ok? && ScanGeneration(acc, gen, init, measure, upward).Ok? {
        var cur := ScanGeneration(acc, gen, init, measure, upward).value;
        if r.value != cur {
          assert r.value.individual == Some(inds[|inds| - 1].0);
        } else if cur != acc {
          var j :| 0 <= j < |init| && cur.generation == Some(gen) && cur.individual == Some(init[j].0)
             && MeasureOf(init[j].1.value, measure) == Some(cur.value);
          assert inds[j] == init[j];
        }
      }
    }
  }

  /** All generations: the scan succeeds exactly when every individual has
      results; the value found is at least as good as the sentinel and as
      every value of every generation; it is the sentinel with no
      generation and individual, or a strictly better value found at a
      named individual. */
  lemma {:induction false} ScanSpec(gens: Evolution.GenResults, measure: string, upward: bool, start: real)
    ensures Scan(gens, measure, upward, start).Ok? <==>
      forall a, b :: 0 <= a < |gens| && 0 <= b < |gens[a].1| ==> gens[a].1[b].1.Some?
    ensures Scan(gens, measure, upward, start).Ok? ==>
      var out := Scan(gens, measure, upward, start).value;
      && AtLeast(out.value, start, upward)
      && (forall a, b :: 0 <= a < |gens| && 0 <= b < |gens[a].1| && MeasureOf(gens[a].1[b].1.value, measure).Some? ==>
            AtLeast(out.value, MeasureOf(gens[a].1[b].1.value, measure).value, upward))
      && (out == Found(None, None, start) ||
          (!AtLeast(start, out.value, upward) && exists a, b :: FoundAt(gens, a, b, out, measure)))
    decreases |gens|
  {
    if |gens| > 0 {
      var init := gens[..|gens| - 1];
      var last := gens[|gens| - 1];
      ScanSpec(init, measure, upward, start);
      assert forall a :: 0 <= a < |init| ==> init[a] == gens[a];
      if Scan(init, measure, upward, start).Ok? {
        var cur := Scan(init, measure, upward, start).value;
        ScanGenerationSpec(cur, last.0, last.1, measure, upward);
        if Scan(gens, measure, upward, start).Ok? {
          var out := Scan(gens, measure, upward, start).value;
          if out != cur {
            var j :| 0 <= j < |last.1| && out.generation == Some(last.0) && out.individual == Some(last.1[j].0)
              && MeasureOf(last.1[j].1.value, measure) == Some(out.value);
            assert FoundAt(gens, |gens| - 1, j, out, measure);
          } else if cur != Found(None, None, start) {
            var a, b :| FoundAt(init, a, b, cur, measure);
            assert FoundAt(gens, a, b, out, measure);
          }
        }
      }
    }
  }

  /** The best-result scan: an unknown measure fails the assertion; otherwise
      the value is the largest accuracy or fitness above 0, or the smallest
      other measure below 100000000, and the sentinel when nothing beats it. */
  lemma BestResultSpec(gens: Evolution.GenResults, measure: string)
    ensures measure !in AvailableMeasures ==> BestResult(gens, measure) == Err(AssertionError)
    ensures BestResult(gens, measure).Ok? ==>
      var out := BestResult(gens, measure).value;
      var up := Maximised(measure);
      var start := if up then 0.0 else 100000000.0;
      && AtLeast(out.value, start, up)
      && (forall a, b ::
            (0 <= a < |gens| && 0 <= b < |gens[a].1| && gens[a].1[b].1.Some? && MeasureOf(gens[a].1[b].1.value, measure).Some?) ==>
            AtLeast(out.value, MeasureOf(gens[a].1[b].1.value, measure).value, up))
      && (out == Found(None, None, start) || exists a, b :: FoundAt(gens, a, b, out, measure))
  {
    if Maximised(measure) {
      ScanSpec(gens, measure, true, 0.0);
    } else {
      ScanSpec(gens, measure, false, 100000000.0);
    }
  }

  /** The worst-result scan: the smallest accuracy or fitness below 1, or the
      largest other measure above 0, and the sentinel when nothing is worse. */
  lemma WorstResultSpec(gens: Evolution.GenResults, measure: string)
    ensures measure !in AvailableMeasures ==> WorstResult(gens, measure) == Err(AssertionError)
    ensures WorstResult(gens, measure).Ok? ==>
      var out := WorstResult(gens, measure).value;
      var down := !Maximised(measure);
      var start := if Maximised(measure) then 1.0 else 0.0;
      && AtLeast(out.value, start, down)
      && (forall a, b ::
            (0 <= a < |gens| && 0 <= b < |gens[a].1| && gens[a].1[b].1.Some? && MeasureOf(gens[a].1[b].1.value, measure).Some?) ==>
            AtLeast(out.value, MeasureOf(gens[a].1[b].1.value, measure).value, down))
      && (out == Found(None, None, start) || exists a, b :: FoundAt(gens, a, b, out, measure))
  {
    if Maximised(measure) {
      ScanSpec(gens, measure, false, 1.0);
    } else {
      ScanSpec(gens, measure, true, 0.0);
    }
  }
}
