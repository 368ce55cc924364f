/** The result-aggregation helpers of the evolution module: generation
    listing, generation-range checks, the health partition of results, the
    clamped minimum and maximum of a measure, measurement defaults, the best
    individual per generation and gene counting. The directory listings and
    the parsed files are inputs. */
module Evolution {

  import opened Wrappers
  import opened Py
  import opened PyStr
  import opened Seqs

  /** A parsed results or settings dict. */
  type Fields = seq<(string, Json)>

  /** What `get_individual_result` gives for one individual: its results
      dict, or None when the individual has no results file. */
  type IndResult = Option<Fields>

  // ---------------------------------------------------------- get_generations

  /** `int(name.split("_")[1])`. */
  function GenerationNumber(name: string): Result<int>
  {
    var parts := Split(name, '_');
    if |parts| < 2 then Err(IndexError)
    else match ParseInt(parts[1])
      case None => Err(ValueError)
      case Some(n) => Ok(n)
  }

  function NumberResults(names: seq<string>): (rs: seq<Result<int>>)
    ensures |rs| == |names|
    ensures forall i :: 0 <= i < |names| ==> rs[i] == GenerationNumber(names[i])
  {
    seq(|names|, i requires 0 <= i < |names| => GenerationNumber(names[i]))
  }

  /** The numbers of the generation directories, in listing order. */
  function GenerationNumbers(names: seq<string>): Result<seq<int>>
  {
    AllOk(NumberResults(names))
  }

  /** `f"Generation_{n}"`. */
  function GenerationName(n: int): string
  {
    "Generation_" + IntToString(n)
  }

  function GenerationNames(ns: seq<int>): (names: seq<string>)
    ensures |names| == |ns|
    ensures forall i :: 0 <= i < |ns| ==> names[i] == GenerationName(ns[i])
  {
    seq(|ns|, i requires 0 <= i < |ns| => GenerationName(ns[i]))
  }

  /** The two shapes `get_generations` returns. */
  datatype Generations = Names(names: seq<string>) | Numbers(numbers: seq<int>)

  function Shaped(ns: seq<int>, asInt: bool): Generations
  {
    if asInt then Numbers(ns) else Names(GenerationNames(ns))
  }

  /** `result.get("fitness", None) is None`; a missing results file has no
      `get`. */
  function LacksFitness(result: IndResult): Result<bool>
  {
    if result.None? then Err(AttributeError)
    else Ok(!HasKey(result.value, "fitness") || Lookup(result.value, "fitness").value == Null)
  }

  /** The last-generation loop: every result is inspected, and one without
      a fitness clears the flag. */
  function TakeLast(results: seq<(string, IndResult)>): Result<bool>
    decreases |results|
  {
    if |results| == 0 then Ok(true)
    else
      var prev :- TakeLast(results[..|results| - 1]);
      var lacks :- LacksFitness(results[|results| - 1].1);
      Ok(prev && !lacks)
  }

  /** `get_generations` after the listing: `dirs` are the run's
      sub-directories and `lastResults` the results of the individuals of the
      highest-numbered one. The numbers are sorted, and the last generation
      is dropped while any of its individuals still lacks a fitness. */
  function GetGenerations(dirs: seq<string>, lastResults: seq<(string, IndResult)>, asInt: bool): Result<Generations>
  {
    var ns :- GenerationNumbers(dirs);
    var sorted := Sort(ns);
    if |sorted| == 0 then Err(IndexError)
    else
      var take :- TakeLast(lastResults);
      Ok(Shaped(if take then sorted else sorted[..|sorted| - 1], asInt))
  }

  lemma {:induction false} TakeLastPrefixErr(results: seq<(string, IndResult)>, k: nat)
    requires k <= |results| && TakeLast(results[..k]).Err?
    ensures TakeLast(results) == TakeLast(results[..k])
    decreases |results|
  {
    if k < |results| {
      assert results[..|results| - 1][..k] == results[..k];
      TakeLastPrefixErr(results[..|results| - 1], k);
    } else {
      assert results[..k] == results;
    }
  }

  method LastGenerationFinished(results: seq<(string, IndResult)>) returns (r: Result<bool>)
    ensures r == TakeLast(results)
  {
    var takeLastGen := true;
    for i := 0 to |results|
      invariant TakeLast(results[..i]) == Ok(takeLastGen)
    {
      assert results[..i + 1][..i] == results[..i];
      var result := results[i].1;
      if result.None? {
        TakeLastPrefixErr(results, i + 1);
        return Err(AttributeError);
      }
      if !HasKey(result.value, "fitness") || Lookup(result.value, "fitness").value == Null {
        takeLastGen := false;
      }
    }
    assert results[..|results|] == results;
    return Ok(takeLastGen);
  }

  method GetGenerationsOf(dirs: seq<string>, lastResults: seq<(string, IndResult)>, asInt: bool) returns (r: Result<Generations>)
    ensures r == GetGenerations(dirs, lastResults, asInt)
  {
    var numbers := GenerationNumbers(dirs);
    if numbers.Err? {
      return Err(numbers.error);
    }
    var generationsInt := Sort(numbers.value);
    if |generationsInt| == 0 {
      return Err(IndexError);
    }
    var takeLastGen := LastGenerationFinished(lastResults);
    if takeLastGen.Err? {
      return Err(takeLastGen.error);
    }
    if !takeLastGen.value {
      generationsInt := generationsInt[0..|generationsInt| - 1];
    }
    return Ok(Shaped(generationsInt, asInt));
  }

  /** The last generation is kept exactly when every one of its individuals
      has a results file with a non-null fitness. */
  lemma {:induction false} TakeLastSpec(results: seq<(string, IndResult)>)
    ensures TakeLast(results).Ok? <==> forall i :: 0 <= i < |results| ==> results[i].1.Some?
    ensures TakeLast(results) == Ok(true) <==>
      forall i :: 0 <= i < |results| ==>
        results[i].1.Some? && HasKey(results[i].1.value, "fitness") && Lookup(results[i].1.value, "fitness").value != Null
    decreases |results|
  {
    if |results| > 0 {
      var init := results[..|results| - 1];
      TakeLastSpec(init);
      assert forall i :: 0 <= i < |init| ==> init[i] == results[i];
    }
  }

  /** The numbers come back ascending; they are all the parsed numbers,
      except that the largest is left out when the last generation is
      unfinished. */
  lemma GetGenerationsSpec(dirs: seq<string>, lastResults: seq<(string, IndResult)>)
    ensures GetGenerations(dirs, lastResults, true).Ok? ==>
      var ns := GenerationNumbers(dirs).value;
      var out := GetGenerations(dirs, lastResults, true).value.numbers;
      && Sorted(out)
      && |ns| > 0
      && (TakeLast(lastResults) == Ok(true) ==> multiset(out) == multiset(ns))
      && (TakeLast(lastResults) == Ok(false) ==>
            |out| == |ns| - 1 && multiset(out) + multiset{Sort(ns)[|ns| - 1]} == multiset(ns) &&
            forall x :: x in ns ==> x <= Sort(ns)[|ns| - 1])
    ensures GenerationNumbers(dirs).Ok? && |dirs| == 0 ==> GetGenerations(dirs, lastResults, true) == Err(IndexError)
  {
    if GenerationNumbers(dirs).Ok? {
      var ns := GenerationNumbers(dirs).value;
      AllOkSpec(NumberResults(dirs));
      SortSpec(ns);
      if |ns| > 0 {
        SortDropLast(ns);
      }
    }
  }

  /** Dropping the last element of the sorted list drops a maximum. */
  lemma SortDropLast(ns: seq<int>)
    requires |ns| > 0
    ensures var sorted := Sort(ns);
      && |sorted| == |ns|
      && Sorted(sorted[..|ns| - 1])
      && multiset(sorted[..|ns| - 1]) + multiset{sorted[|ns| - 1]} == multiset(ns)
      && forall x :: x in ns ==> x <= sorted[|ns| - 1]
  {
    SortSpec(ns);
    var sorted := Sort(ns);
    assert sorted == sorted[..|sorted| - 1] + [sorted[|sorted| - 1]];
    forall x | x in ns ensures x <= sorted[|ns| - 1] {
      assert x in multiset(sorted);
      var k :| 0 <= k < |sorted| && sorted[k] == x;
    }
  }

  /** Every name is `Generation_` followed by the number, and reads back as
      that number. */
  lemma GenerationNameNumber(n: int)
    ensures GenerationNumber(GenerationName(n)) == Ok(n)
  {
    var digits := IntToString(n);
    var name := GenerationName(n);
    IntToStringChars(n);
    assert name == "Generation" + "_" + digits;
    SplitFirst(name, '_', 10);
    assert name[11..] == digits;
    SplitFirst(digits, '_', |digits|);
    assert digits[..|digits|] == digits;
    ParseIntToString(n);
  }

  lemma IntToStringChars(n: int)
    ensures '_' !in IntToString(n)
  {
    NatDigitsChars(if n < 0 then -n else n);
  }

  lemma {:induction false} NatDigitsChars(n: nat)
    ensures '_' !in NatDigits(n)
    decreases n
  {
    if n >= 10 {
      NatDigitsChars(n / 10);
    }
  }

  // --------------------------------------------------------- get_individuals

  /** The `generation_range` argument: omitted, a `range(start, stop)`, or a
      value that is not a range. */
  datatype GenerationRange = AllGenerations | Range(start: int, stop: int) | NotARange

  function RangeElements(start: int, stop: int): (gs: seq<int>)
    ensures |gs| == if stop <= start then 0 else stop - start
    ensures forall i :: 0 <= i < |gs| ==> gs[i] == start + i
  {
    if stop <= start then [] else seq(stop - start, i requires 0 <= i < stop - start => start + i)
  }

  /** The range check of `get_individuals` against the `count` generations
      `get_generations` lists: an empty range or one reaching outside
      `1..count` is a ValueError; otherwise the generations in order. */
  function CheckGenerationRange(count: nat, r: GenerationRange): Result<seq<int>>
  {
    var r' := if r.AllGenerations? then Range(1, count + 1) else r;
    if r'.NotARange? || r'.stop <= r'.start then Err(ValueError)
    else
      var gs := RangeElements(r'.start, r'.stop);
      if !Within(gs, count) then Err(ValueError)
      else Ok(gs)
  }

  /** Every generation is one of the `count` listed ones. */
  predicate Within(gs: seq<int>, count: nat)
  {
    forall i :: 0 <= i < |gs| ==> 1 <= gs[i] <= count
  }

  /** A range passes exactly when it is non-empty and inside `1..count`;
      the default is every listed generation, and fails only when none is. */
  lemma CheckGenerationRangeSpec(count: nat, start: int, stop: int)
    ensures CheckGenerationRange(count, Range(start, stop)).Ok? <==> 1 <= start < stop <= count + 1
    ensures CheckGenerationRange(count, Range(start, stop)).Ok? ==>
      CheckGenerationRange(count, Range(start, stop)).value == RangeElements(start, stop)
    ensures CheckGenerationRange(count, AllGenerations).Ok? <==> count > 0
    ensures count > 0 ==> CheckGenerationRange(count, AllGenerations).value == RangeElements(1, count + 1)
    ensures CheckGenerationRange(count, NotARange) == Err(ValueError)
  {
    var gs := RangeElements(start, stop);
    if start < stop && !(1 <= start && stop <= count + 1) {
      if start < 1 {
        assert gs[0] == start;
      } else {
        assert gs[stop - start - 1] == stop - 1;
      }
    }
  }

  // ------------------------------------------ get_healthy_individuals_results

  /** Results grouped by generation, each an individual-to-result dict. The
      dicts are lists of pairs whose keys are distinct, so `d[k] = v` for a
      new key appends. */
  type GenResults = seq<(int, seq<(string, IndResult)>)>

  /** Where the health logic puts one result. */
  datatype Health = Healthy | Unhealthy | Neither

  /** The health test: no `error` key, or `error` equal to `"False"` or to
      `False`, is healthy; `error` equal to `"True"` or to `True` is
      unhealthy; anything else, such as an exception message, is neither. A
      missing results file (None) makes `"error" not in result` raise. */
  function ErrorFlag(result: IndResult): Result<Health>
  {
    if result.None? then Err(TypeError)
    else if !HasKey(result.value, "error") then Ok(Healthy)
    else
      var v := Lookup(result.value, "error").value;
      if v == Str("False") || EqualsFalse(v) then Ok(Healthy)
      else if v == Str("True") || EqualsTrue(v) then Ok(Unhealthy)
      else Ok(Neither)
  }

  /** The inner loop for one generation: each result goes to the healthy
      dict, the unhealthy dict or neither, in the generation's order. */
  function PartitionGeneration(results: seq<(string, IndResult)>, classify: IndResult -> Result<Health>):
    Result<(seq<(string, IndResult)>, seq<(string, IndResult)>)>
    decreases |results|
  {
    if |results| == 0 then Ok(([], []))
    else
      var split :- PartitionGeneration(results[..|results| - 1], classify);
      var entry := results[|results| - 1];
      var health :- classify(entry.1);
      if health == Healthy then Ok((split.0 + [entry], split.1))
      else if health == Unhealthy then Ok((split.0, split.1 + [entry]))
      else Ok(split)
  }

  /** The outer loop: every generation gets a healthy and an unhealthy dict,
      possibly empty. */
  function Partition(gens: GenResults, classify: IndResult -> Result<Health>): Result<(GenResults, GenResults)>
    decreases |gens|
  {
    if |gens| == 0 then Ok(([], []))
    else
      var split :- Partition(gens[..|gens| - 1], classify);
      var gen := gens[|gens| - 1];
      var parts :- PartitionGeneration(gen.1, classify);
      Ok((split.0 + [(gen.0, parts.0)], split.1 + [(gen.0, parts.1)]))
  }

  function DictValues(d: seq<(string, IndResult)>): (vs: seq<IndResult>)
    ensures |vs| == |d|
    ensures forall i :: 0 <= i < |d| ==> vs[i] == d[i].1
  {
    seq(|d|, i requires 0 <= i < |d| => d[i].1)
  }

  /** `for gen, results in d.items(): out += list(results.values())`. */
  function Flatten(byGen: GenResults): seq<IndResult>
    decreases |byGen|
  {
    if |byGen| == 0 then []
    else Flatten(byGen[..|byGen| - 1]) + DictValues(byGen[|byGen| - 1].1)
  }

  /** The two shapes the partition is returned in. */
  datatype HealthView =
    | ByGeneration(healthyByGen: GenResults, unhealthyByGen: GenResults)
    | Lists(healthy: seq<IndResult>, unhealthy: seq<IndResult>)

  function HealthyIndividuals(gens: GenResults, classify: IndResult -> Result<Health>, asGenerationDict: bool): Result<HealthView>
  {
    var split :- Partition(gens, classify);
    if asGenerationDict then Ok(ByGeneration(split.0, split.1))
    else Ok(Lists(Flatten(split.0), Flatten(split.1)))
  }

  lemma {:induction false} PartitionGenerationPrefixErr(results: seq<(string, IndResult)>, classify: IndResult -> Result<Health>, k: nat)
    requires k <= |results| && PartitionGeneration(results[..k], classify).Err?
    ensures PartitionGeneration(results, classify) == PartitionGeneration(results[..k], classify)
    decreases |results|
  {
    if k < |results| {
      assert results[..|results| - 1][..k] == results[..k];
      PartitionGenerationPrefixErr(results[..|results| - 1], classify, k);
    } else {
      assert results[..k] == results;
    }
  }

  lemma {:induction false} PartitionPrefixErr(gens: GenResults, classify: IndResult -> Result<Health>, k: nat)
    requires k <= |gens| && Partition(gens[..k], classify).Err?
    ensures Partition(gens, classify) == Partition(gens[..k], classify)
    decreases |gens|
  {
    if k < |gens| {
      assert gens[..|gens| - 1][..k] == gens[..k];
      PartitionPrefixErr(gens[..|gens| - 1], classify, k);
    } else {
      assert gens[..k] == gens;
    }
  }

  /** The inner loop, filling the generation's two dicts. */
  method PartitionGenerationOf(results: seq<(string, IndResult)>, classify: IndResult -> Result<Health>)
    returns (r: Result<(seq<(string, IndResult)>, seq<(string, IndResult)>)>)
    ensures r == PartitionGeneration(results, classify)
  {
    var healthy := [];
    var unhealthy := [];
    for i := 0 to |results|
      invariant PartitionGeneration(results[..i], classify) == Ok((healthy, unhealthy))
    {
      assert results[..i + 1][..i] == results[..i];
      var health := classify(results[i].1);
      if health.Err? {
        PartitionGenerationPrefixErr(results, classify, i + 1);
        return Err(health.error);
      }
      if health.value == Healthy {
        healthy := healthy + [results[i]];
      } else if health.value == Unhealthy {
        unhealthy := unhealthy + [results[i]];
      }
    }
    assert results[..|results|] == results;
    return Ok((healthy, unhealthy));
  }

  /** The partition loops for a given health test: the per-generation
      dicts, or both flattened into lists. */
  method PartitionResults(gens: GenResults, classify: IndResult -> Result<Health>, asGenerationDict: bool)
    returns (r: Result<HealthView>)
    ensures r == HealthyIndividuals(gens, classify, asGenerationDict)
  {
    var healthy: GenResults := [];
    var unhealthy: GenResults := [];
    for g := 0 to |gens|
      invariant Partition(gens[..g], classify) == Ok((healthy, unhealthy))
    {
      assert gens[..g + 1][..g] == gens[..g];
      var parts := PartitionGenerationOf(gens[g].1, classify);
      if parts.Err? {
        PartitionPrefixErr(gens, classify, g + 1);
        return Err(parts.error);
      }
      healthy := healthy + [(gens[g].0, parts.value.0)];
      unhealthy := unhealthy + [(gens[g].0, parts.value.1)];
    }
    assert gens[..|gens|] == gens;
    if asGenerationDict {
      return Ok(ByGeneration(healthy, unhealthy));
    }
    var healthyList := FlattenOf(healthy);
    var unhealthyList := FlattenOf(unhealthy);
    return Ok(Lists(healthyList, unhealthyList));
  }

  /** `get_healthy_individuals_results` on the results of the generations
      `get_individuals` returns. */
  method HealthyIndividualsResults(gens: GenResults, asGenerationDict: bool) returns (r: Result<HealthView>)
    ensures r == HealthyIndividuals(gens, ErrorFlag, asGenerationDict)
  {
    r := PartitionResults(gens, ErrorFlag, asGenerationDict);
  }

  method FlattenOf(byGen: GenResults) returns (out: seq<IndResult>)
    ensures out == Flatten(byGen)
  {
    out := [];
    for g := 0 to |byGen|
      invariant out == Flatten(byGen[..g])
    {
      assert byGen[..g + 1][..g] == byGen[..g];
      out := out + DictValues(byGen[g].1);
    }
    assert byGen[..|byGen|] == byGen;
  }

  /** The health test read back: healthy exactly when `error` is absent or
      false-like, unhealthy exactly when it is true-like, and an `error`
      holding any other string, such as an exception message, is neither. */
  lemma ErrorFlagSpec(fields: Fields)
    ensures ErrorFlag(Some(fields)) == Ok(Healthy) <==>
      (!HasKey(fields, "error") || Lookup(fields, "error").value in {Str("False"), Bool(false), Int(0), Float(0.0)})
    ensures ErrorFlag(Some(fields)) == Ok(Unhealthy) <==>
      (HasKey(fields, "error") && Lookup(fields, "error").value in {Str("True"), Bool(true), Int(1), Float(1.0)})
    ensures forall msg :: Lookup(fields, "error") == Some(Str(msg)) && msg != "True" && msg != "False" ==>
      ErrorFlag(Some(fields)) == Ok(Neither)
    ensures ErrorFlag(None) == Err(TypeError)
  {
  }

  /** One generation: the loop succeeds exactly when every result can be
      classified; then an entry is in the healthy dict exactly when it is a
      healthy entry of the generation, in the unhealthy dict exactly when it
      is an unhealthy one, and in at most one of them. */
  lemma {:induction false} PartitionGenerationSpec(results: seq<(string, IndResult)>, classify: IndResult -> Result<Health>)
    ensures PartitionGeneration(results, classify).Ok? <==> forall i :: 0 <= i < |results| ==> classify(results[i].1).Ok?
    ensures PartitionGeneration(results, classify).Ok? ==>
      var split := PartitionGeneration(results, classify).value;
      && (forall e :: e in split.0 <==> e in results && classify(e.1) == Ok(Healthy))
      && (forall e :: e in split.1 <==> e in results && classify(e.1) == Ok(Unhealthy))
      && (forall e :: e in split.0 ==> e !in split.1)
      && |split.0| + |split.1| <= |results|
    decreases |results|
  {
    if |results| > 0 {
      var init := results[..|results| - 1];
      PartitionGenerationSpec(init, classify);
      assert results == init + [results[|results| - 1]];
    }
  }

  /** All generations: each keeps its place and its number in both results,
      and holds that generation's two dicts. */
  lemma {:induction false} PartitionSpec(gens: GenResults, classify: IndResult -> Result<Health>)
    ensures Partition(gens, classify).Ok? <==>
      forall g :: 0 <= g < |gens| ==> PartitionGeneration(gens[g].1, classify).Ok?
    ensures Partition(gens, classify).Ok? ==>
      var split := Partition(gens, classify).value;
      && |split.0| == |gens| && |split.1| == |gens|
      && forall g :: 0 <= g < |gens| ==>
           && split.0[g].0 == gens[g].0 && split.1[g].0 == gens[g].0
           && (split.0[g].1, split.1[g].1) == PartitionGeneration(gens[g].1, classify).value
    decreases |gens|
  {
    if |gens| > 0 {
      var init := gens[..|gens| - 1];
      PartitionSpec(init, classify);
      assert forall g :: 0 <= g < |init| ==> init[g] == gens[g];
    }
  }

  /** The flattened list has one entry per individual of every generation. */
  lemma {:induction false} FlattenSize(byGen: GenResults)
    ensures |Flatten(byGen)| == GroupsSize(byGen)
    decreases |byGen|
  {
    if |byGen| > 0 {
      FlattenSize(byGen[..|byGen| - 1]);
    }
  }

  /** Individual `k` of generation `g` is flattened to the entry that
      follows the individuals of the generations before it. */
  lemma {:induction false} FlattenAt(byGen: GenResults, g: nat, k: nat)
    requires g < |byGen| && k < |byGen[g].1|
    ensures GroupsSize(byGen[..g]) + k < |Flatten(byGen)|
    ensures Flatten(byGen)[GroupsSize(byGen[..g]) + k] == byGen[g].1[k].1
    decreases |byGen|
  {
    var n := |byGen| - 1;
    var init := byGen[..n];
    FlattenSize(init);
    if g < n {
      FlattenAt(init, g, k);
      assert byGen[..g] == init[..g];
      assert init[g] == byGen[g];
    } else {
      assert byGen[..g] == init;
    }
  }

  /** The flattened list keeps generation order and, within a generation,
      dict order: individual `k` of generation `g` sits right after the
      individuals of the earlier generations. */
  lemma FlattenLayout(byGen: GenResults)
    ensures |Flatten(byGen)| == GroupsSize(byGen)
    ensures forall g :: 0 <= g < |byGen| ==> GroupsSize(byGen[..g]) + |byGen[g].1| <= GroupsSize(byGen)
    ensures forall g, k :: 0 <= g < |byGen| && 0 <= k < |byGen[g].1| ==>
      Flatten(byGen)[GroupsSize(byGen[..g]) + k] == byGen[g].1[k].1
  {
    FlattenSize(byGen);
    forall g | 0 <= g < |byGen| ensures GroupsSize(byGen[..g]) + |byGen[g].1| <= GroupsSize(byGen) {
      GroupsSizePrefix(byGen, g);
    }
    forall g, k | 0 <= g < |byGen| && 0 <= k < |byGen[g].1|
      ensures Flatten(byGen)[GroupsSize(byGen[..g]) + k] == byGen[g].1[k].1
    {
      FlattenAt(byGen, g, k);
    }
  }

  /** The flattened list holds exactly the values of the per-generation
      dicts. */
  lemma {:induction false} FlattenSpec(byGen: GenResults)
    ensures forall r :: r in Flatten(byGen) <==> exists g, e :: 0 <= g < |byGen| && e in byGen[g].1 && e.1 == r
    decreases |byGen|
  {
    if |byGen| > 0 {
      var init := byGen[..|byGen| - 1];
      var last := byGen[|byGen| - 1];
      FlattenSpec(init);
      forall r ensures r in Flatten(byGen) <==> exists g, e :: 0 <= g < |byGen| && e in byGen[g].1 && e.1 == r {
        if r in DictValues(last.1) {
          var k :| 0 <= k < |last.1| && DictValues(last.1)[k] == r;
          assert last.1[k] in byGen[|byGen| - 1].1;
        }
        if exists g, e :: 0 <= g < |byGen| && e in byGen[g].1 && e.1 == r {
          var g, e :| 0 <= g < |byGen| && e in byGen[g].1 && e.1 == r;
          if g < |init| {
            assert init[g] == byGen[g];
          } else {
            var k :| 0 <= k < |last.1| && last.1[k] == e;
            assert DictValues(last.1)[k] == r;
          }
        }
        if exists g, e :: 0 <= g < |init| && e in init[g].1 && e.1 == r {
          var g, e :| 0 <= g < |init| && e in init[g].1 && e.1 == r;
          assert init[g] == byGen[g];
        }
      }
    }
  }

  /** The flattened lists: they exist exactly when every result can be
      classified, a listed result carries the verdict of its list, and no
      result is in both. */
  lemma HealthyListsSpec(gens: GenResults, classify: IndResult -> Result<Health>)
    ensures HealthyIndividuals(gens, classify, false).Ok? <==>
      forall g, i :: 0 <= g < |gens| && 0 <= i < |gens[g].1| ==> classify(gens[g].1[i].1).Ok?
    ensures HealthyIndividuals(gens, classify, false).Ok? ==>
      var view := HealthyIndividuals(gens, classify, false).value;
      && (forall r :: r in view.healthy ==> classify(r) == Ok(Healthy))
      && (forall r :: r in view.unhealthy ==> classify(r) == Ok(Unhealthy))
      && (forall r :: r in view.healthy ==> r !in view.unhealthy)
  {
    PartitionSpec(gens, classify);
    forall g | 0 <= g < |gens| {
      PartitionGenerationSpec(gens[g].1, classify);
    }
    if Partition(gens, classify).Ok? {
      var split := Partition(gens, classify).value;
      FlattenSpec(split.0);
      FlattenSpec(split.1);
      forall r | r in Flatten(split.0) ensures classify(r) == Ok(Healthy) {
        var g, e :| 0 <= g < |split.0| && e in split.0[g].1 && e.1 == r;
      }
      forall r | r in Flatten(split.1) ensures classify(r) == Ok(Unhealthy) {
        var g, e :| 0 <= g < |split.1| && e in split.1[g].1 && e.1 == r;
      }
    }
  }

  /** With this module's health test the lists exist exactly when every
      individual has a results file. */
  lemma HealthyListsOk(gens: GenResults)
    ensures HealthyIndividuals(gens, ErrorFlag, false).Ok? <==>
      forall g, i :: 0 <= g < |gens| && 0 <= i < |gens[g].1| ==> gens[g].1[i].1.Some?
  {
    HealthyListsSpec(gens, ErrorFlag);
  }

  // ------------------------------------------------ _get_minmax_result_by_key

  /** A running extreme: `float('-inf')`, a value, or `float('inf')`. */
  datatype Ext = NegInf | Fin(v: real) | PosInf

  /** `min(m, v)`. */
  function MinExt(m: Ext, v: real): Ext
  {
    match m
    case NegInf => NegInf
    case Fin(x) => Fin(if v < x then v else x)
    case PosInf => Fin(v)
  }

  /** `max(m, v)`. */
  function MaxExt(m: Ext, v: real): Ext
  {
    match m
    case NegInf => Fin(v)
    case Fin(x) => Fin(if v > x then v else x)
    case PosInf => PosInf
  }

  /** Raise the value to the lower boundary, then lower it to the upper one. */
  function Clamp(v: real, lo: Option<real>, hi: Option<real>): real
  {
    var raised := if lo.Some? && lo.value > v then lo.value else v;
    if hi.Some? && hi.value < raised then hi.value else raised
  }

  /** The entries that take part: a results dict holding the key with an
      int, float or bool value. */
  predicate Qualifies(result: IndResult, key: string)
  {
    result.Some? && HasKey(result.value, key) && IsNumber(Lookup(result.value, key).value)
  }

  function MeasureValue(result: IndResult, key: string): real
    requires Qualifies(result, key)
  {
    NumValue(Lookup(result.value, key).value)
  }

  /** The clamped values of the qualifying entries, in order. */
  function Clamped(results: seq<IndResult>, key: string, lo: Option<real>, hi: Option<real>): seq<real>
    decreases |results|
  {
    if |results| == 0 then []
    else
      var prev := Clamped(results[..|results| - 1], key, lo, hi);
      var last := results[|results| - 1];
      if Qualifies(last, key) then prev + [Clamp(MeasureValue(last, key), lo, hi)] else prev
  }

  function Lowest(vs: seq<real>): Ext
    decreases |vs|
  {
    if |vs| == 0 then PosInf else MinExt(Lowest(vs[..|vs| - 1]), vs[|vs| - 1])
  }

  function Highest(vs: seq<real>): Ext
    decreases |vs|
  {
    if |vs| == 0 then NegInf else MaxExt(Highest(vs[..|vs| - 1]), vs[|vs| - 1])
  }

  /** `(None, None)` for an empty list, otherwise the running minimum and
      maximum. */
  datatype MinMax = NoResults | Extremes(lo: Ext, hi: Ext)

  function MinMaxByKey(results: seq<IndResult>, key: string, lo: Option<real>, hi: Option<real>): MinMax
  {
    if |results| == 0 then NoResults
    else
      var vs := Clamped(results, key, lo, hi);
      Extremes(Lowest(vs), Highest(vs))
  }

  /** The loop keeping `min_val` and `max_val`. */
  method GetMinMaxResultByKey(results: seq<IndResult>, key: string, lo: Option<real>, hi: Option<real>) returns (r: MinMax)
    ensures r == MinMaxByKey(results, key, lo, hi)
  {
    if |results| == 0 {
      return NoResults;
    }
    var minVal := PosInf;
    var maxVal := NegInf;
    ghost var vs: seq<real> := [];
    for i := 0 to |results|
      invariant vs == Clamped(results[..i], key, lo, hi)
      invariant minVal == Lowest(vs) && maxVal == Highest(vs)
    {
      assert results[..i + 1][..i] == results[..i];
      var result := results[i];
      assert results[..i + 1][i] == result;
      if result.Some? && HasKey(result.value, key) && IsNumber(Lookup(result.value, key).value) {
        var val := NumValue(Lookup(result.value, key).value);
        if lo.Some? {
          val := if lo.value > val then lo.value else val;
        }
        if hi.Some? {
          val := if hi.value < val then hi.value else val;
        }
        assert val == Clamp(MeasureValue(result, key), lo, hi);
        minVal := MinExt(minVal, val);
        maxVal := MaxExt(maxVal, val);
        assert (vs + [val])[..|vs|] == vs;
        assert Lowest(vs + [val]) == minVal && Highest(vs + [val]) == maxVal;
        vs := vs + [val];
      }
    }
    assert results[..|results|] == results;
    return Extremes(minVal, maxVal);
  }

  /** The clamp never exceeds the upper boundary, never falls below a lower
      boundary that does not exceed the upper one, and leaves a value
      already within the boundaries unchanged. */
  lemma ClampSpec(v: real, lo: Option<real>, hi: Option<real>)
    ensures hi.Some? ==> Clamp(v, lo, hi) <= hi.value
    ensures lo.Some? && (hi.None? || lo.value <= hi.value) ==> lo.value <= Clamp(v, lo, hi)
    ensures (lo.None? || lo.value <= v) && (hi.None? || v <= hi.value) ==> Clamp(v, lo, hi) == v
    ensures lo.Some? && hi.Some? && hi.value < lo.value ==> Clamp(v, lo, hi) == hi.value
  {
  }

  /** The clamped list holds one clamped value per qualifying entry, and
      nothing else. */
  lemma {:induction false} ClampedSpec(results: seq<IndResult>, key: string, lo: Option<real>, hi: Option<real>)
    ensures forall x :: x in Clamped(results, key, lo, hi) <==>
      exists i :: 0 <= i < |results| && Qualifies(results[i], key) && x == Clamp(MeasureValue(results[i], key), lo, hi)
    ensures |Clamped(results, key, lo, hi)| == 0 <==> forall i :: 0 <= i < |results| ==> !Qualifies(results[i], key)
    decreases |results|
  {
    if |results| > 0 {
      var init := results[..|results| - 1];
      ClampedSpec(init, key, lo, hi);
      assert forall i :: 0 <= i < |init| ==> init[i] == results[i];
    }
  }

  /** The running minimum is the least value, infinity for none. */
  lemma {:induction false} LowestSpec(vs: seq<real>)
    ensures Lowest(vs) == PosInf <==> |vs| == 0
    ensures Lowest(vs) != NegInf
    ensures Lowest(vs).Fin? ==> Lowest(vs).v in vs && forall x :: x in vs ==> Lowest(vs).v <= x
    decreases |vs|
  {
    if |vs| > 0 {
      var init := vs[..|vs| - 1];
      LowestSpec(init);
      assert vs == init + [vs[|vs| - 1]];
    }
  }

  /** The running maximum is the greatest value, minus infinity for none. */
  lemma {:induction false} HighestSpec(vs: seq<real>)
    ensures Highest(vs) == NegInf <==> |vs| == 0
    ensures Highest(vs) != PosInf
    ensures Highest(vs).Fin? ==> Highest(vs).v in vs && forall x :: x in vs ==> x <= Highest(vs).v
    decreases |vs|
  {
    if |vs| > 0 {
      var init := vs[..|vs| - 1];
      HighestSpec(init);
      assert vs == init + [vs[|vs| - 1]];
    }
  }

  /** The pair is `(None, None)` only for an empty list and
      `(inf, -inf)` when nothing qualifies; otherwise it is the least and the
      greatest clamped value of a qualifying entry, both within the
      boundaries when these are ordered. */
  lemma MinMaxSpec(results: seq<IndResult>, key: string, lo: Option<real>, hi: Option<real>)
    ensures MinMaxByKey(results, key, lo, hi) == NoResults <==> |results| == 0
    ensures |results| > 0 && (forall i :: 0 <= i < |results| ==> !Qualifies(results[i], key)) ==>
      MinMaxByKey(results, key, lo, hi) == Extremes(PosInf, NegInf)
    ensures MinMaxByKey(results, key, lo, hi).Extremes? && MinMaxByKey(results, key, lo, hi).lo.Fin? ==>
      var m := MinMaxByKey(results, key, lo, hi);
      && m.hi.Fin? && m.lo.v <= m.hi.v
      && (exists i :: 0 <= i < |results| && Qualifies(results[i], key) && m.lo.v == Clamp(MeasureValue(results[i], key), lo, hi))
      && (exists i :: 0 <= i < |results| && Qualifies(results[i], key) && m.hi.v == Clamp(MeasureValue(results[i], key), lo, hi))
      && (forall i :: 0 <= i < |results| && Qualifies(results[i], key) ==>
            m.lo.v <= Clamp(MeasureValue(results[i], key), lo, hi) <= m.hi.v)
      && (hi.Some? ==> m.hi.v <= hi.value)
      && (lo.Some? && (hi.None? || lo.value <= hi.value) ==> lo.value <= m.lo.v)
  {
    var vs := Clamped(results, key, lo, hi);
    ClampedSpec(results, key, lo, hi);
    LowestSpec(vs);
    HighestSpec(vs);
    if |results| > 0 && Lowest(vs).Fin? {
      var m := MinMaxByKey(results, key, lo, hi);
      forall i | 0 <= i < |results| && Qualifies(results[i], key)
        ensures m.lo.v <= Clamp(MeasureValue(results[i], key), lo, hi) <= m.hi.v
      {
        assert Clamp(MeasureValue(results[i], key), lo, hi) in vs;
      }
      var i :| 0 <= i < |results| && Qualifies(results[i], key) && m.hi.v == Clamp(MeasureValue(results[i], key), lo, hi);
      ClampSpec(MeasureValue(results[i], key), lo, hi);
      var j :| 0 <= j < |results| && Qualifies(results[j], key) && m.lo.v == Clamp(MeasureValue(results[j], key), lo, hi);
      ClampSpec(MeasureValue(results[j], key), lo, hi);
    }
  }

  lemma ClampedSnoc(results: seq<IndResult>, r: IndResult, key: string, lo: Option<real>, hi: Option<real>)
    ensures Clamped(results + [r], key, lo, hi) ==
      Clamped(results, key, lo, hi) + if Qualifies(r, key) then [Clamp(MeasureValue(r, key), lo, hi)] else []
  {
    assert (results + [r])[..|results|] == results;
  }

  lemma SingleEntry(key: string, v: Json)
    ensures Qualifies(Some([(key, v)]), key) <==> IsNumber(v)
    ensures IsNumber(v) ==> MeasureValue(Some([(key, v)]), key) == NumValue(v)
  {
    assert [(key, v)][0].0 == key;
  }

  /** The documented example: values 3, "invalid" and 5 with boundaries 2
      and 4 give (3, 4). */
  lemma MinMaxExample()
    ensures MinMaxByKey([Some([("value", Int(3))]), Some([("value", Str("invalid"))]), Some([("value", Int(5))])],
                        "value", Some(2.0), Some(4.0)) == Extremes(Fin(3.0), Fin(4.0))
  {
    var a, b, c := Some([("value", Int(3))]), Some([("value", Str("invalid"))]), Some([("value", Int(5))]);
    SingleEntry("value", Int(3));
    SingleEntry("value", Str("invalid"));
    SingleEntry("value", Int(5));
    ClampedSnoc([], a, "value", Some(2.0), Some(4.0));
    ClampedSnoc([a], b, "value", Some(2.0), Some(4.0));
    ClampedSnoc([a, b], c, "value", Some(2.0), Some(4.0));
    assert [] + [a] == [a] && [a] + [b] == [a, b] && [a, b] + [c] == [a, b, c];
    var vs := Clamped([a, b, c], "value", Some(2.0), Some(4.0));
    assert vs == [3.0, 4.0];
    assert vs[..1] == [3.0] && [3.0][..0] == [];
    assert Lowest([3.0]) == Fin(3.0) && Highest([3.0]) == Fin(3.0);
    assert Lowest(vs) == MinExt(Lowest([3.0]), 4.0);
    assert Highest(vs) == MaxExt(Highest([3.0]), 4.0);
    assert MinMaxByKey([a, b, c], "value", Some(2.0), Some(4.0)) == Extremes(Fin(3.0), Fin(4.0));
  }

  // ------------------------------------------------------------ get_meas_info

  /** The icon a measurement shows when its settings name none. */
  const DefaultIcon := "measure1-icon.png"

  const IconKey := "individual-info-img"

  /** The defaults assigned before the icon, in order. */
  function LeadingDefaults(name: string): seq<(string, Json)>
  {
    [("displayname", Str(name)), ("unit", Null), ("run-result-plot", Bool(true)),
     ("individual-info-plot", Bool(true)), ("pareto-optimlity-plot", Bool(false))]
  }

  /** The defaults assigned after the icon, in order. */
  const TrailingDefaults: seq<(string, Json)> := [("min-boundary", Null), ("max-boundary", Null)]

  /** `setting[key] = setting.get(key, default)`. */
  function Defaulted(setting: Fields, key: string, default: Json): Fields
  {
    Assign(setting, key, GetOr(setting, key, default))
  }

  /** The assignments for a list of defaults, one after the other. */
  function ApplyDefaults(setting: Fields, defaults: seq<(string, Json)>): Fields
    decreases |defaults|
  {
    if |defaults| == 0 then setting
    else ApplyDefaults(Defaulted(setting, defaults[0].0, defaults[0].1), defaults[1..])
  }

  /** The icon assignment: the given icon unless it is missing or falsy. */
  function WithIcon(setting: Fields): Fields
  {
    var img := GetOr(setting, IconKey, Str(DefaultIcon));
    Assign(setting, IconKey, if Truthy(img) then img else Str(DefaultIcon))
  }

  /** The eight assignments on one measurement's settings dict. */
  function WithDefaults(name: string, setting: Fields): Fields
  {
    Stages(setting, LeadingDefaults(name), TrailingDefaults)
  }

  /** One entry of `results.items()`; a settings value that is not a dict has
      no `get`. */
  function DefaultEntry(entry: (string, Json)): Result<(string, Json)>
  {
    if entry.1.Obj? then Ok((entry.0, Obj(WithDefaults(entry.0, entry.1.fields))))
    else Err(AttributeError)
  }

  /** `get_meas_info` on the parsed configuration: its `results` dict with
      every measurement's settings completed. */
  function MeasInfo(configs: Json): Result<Fields>
  {
    var results :- GetItem(configs, "results");
    if !results.Obj? then Err(AttributeError)
    else AllOk(MapSeq(results.fields, DefaultEntry))
  }

  /** `get_meas_info` on the parsed configuration. */
  method GetMeasInfo(configs: Json) returns (r: Result<Fields>)
    ensures r == MeasInfo(configs)
  {
    var results := GetItem(configs, "results");
    if results.Err? {
      return Err(results.error);
    }
    if !results.value.Obj? {
      return Err(AttributeError);
    }
    var original := results.value.fields;
    r := CompleteEach(original, DefaultEntry);
  }

  /** The loop of `get_meas_info`: each entry in turn is completed in place by
      `complete`, the first failure ending the loop. */
  method CompleteEach<T>(original: seq<T>, complete: T -> Result<T>) returns (r: Result<seq<T>>)
    ensures r == AllOk(MapSeq(original, complete))
  {
    var settings := original;
    ghost var rs := MapSeq(original, complete);
    for i := 0 to |original|
      invariant |settings| == |original|
      invariant AllOk(rs[..i]) == Ok(settings[..i])
      invariant settings[i..] == original[i..]
    {
      assert rs[..i + 1][..i] == rs[..i];
      assert settings[i] == original[i];
      var completed := complete(settings[i]);
      if completed.Err? {
        AllOkPrefixErr(rs, i + 1);
        return Err(completed.error);
      }
      ghost var before := settings;
      settings := settings[i := completed.value];
      assert settings[..i + 1] == before[..i] + [completed.value];
      assert settings[i + 1..] == before[i + 1..];
    }
    assert rs[..|original|] == rs;
    assert settings[..|original|] == settings;
    return Ok(settings);
  }

  /** One `setting[key] = setting.get(key, default)`: the key ends up with
      its old value or the default, every other key is untouched, and the
      old keys keep their order with the key appended when new. */
  lemma DefaultedSpec(setting: Fields, key: string, default: Json)
    ensures Lookup(Defaulted(setting, key, default), key) == Some(GetOr(setting, key, default))
    ensures forall k :: k != key ==> Lookup(Defaulted(setting, key, default), k) == Lookup(setting, k)
    ensures Keys(setting) <= Keys(Defaulted(setting, key, default))
  {
    AssignLookup(setting, key, GetOr(setting, key, default));
    AssignKeys(setting, key, GetOr(setting, key, default));
  }

  function DefaultKeysOf(defaults: seq<(string, Json)>): (ks: seq<string>)
    ensures |ks| == |defaults|
    ensures forall i :: 0 <= i < |defaults| ==> ks[i] == defaults[i].0
  {
    seq(|defaults|, i requires 0 <= i < |defaults| => defaults[i].0)
  }

  /** A run of assignments with distinct keys: each key ends up with its old
      value or its default, every other key is untouched, and the old keys
      keep their order. */
  lemma ApplyDefaultsSpec(setting: Fields, defaults: seq<(string, Json)>)
    requires NoDuplicates(DefaultKeysOf(defaults))
    ensures forall i :: 0 <= i < |defaults| ==>
      Lookup(ApplyDefaults(setting, defaults), defaults[i].0) == Some(GetOr(setting, defaults[i].0, defaults[i].1))
    ensures forall k :: k !in DefaultKeysOf(defaults) ==> Lookup(ApplyDefaults(setting, defaults), k) == Lookup(setting, k)
    ensures Keys(setting) <= Keys(ApplyDefaults(setting, defaults))
  {
    forall i | 0 <= i < |defaults|
      ensures Lookup(ApplyDefaults(setting, defaults), defaults[i].0) == Some(GetOr(setting, defaults[i].0, defaults[i].1))
    {
      ApplyDefaultsHit(setting, defaults, i);
    }
    forall k | k !in DefaultKeysOf(defaults)
      ensures Lookup(ApplyDefaults(setting, defaults), k) == Lookup(setting, k)
    {
      ApplyDefaultsMiss(setting, defaults, k);
    }
    ApplyDefaultsKeys(setting, defaults);
  }

  /** The keys after the first default are those of the rest. */
  lemma DefaultKeysTail(defaults: seq<(string, Json)>)
    requires |defaults| > 0
    ensures DefaultKeysOf(defaults) == [defaults[0].0] + DefaultKeysOf(defaults[1..])
  {
  }

  /** A key no default names keeps its value. */
  lemma {:induction false} ApplyDefaultsMiss(setting: Fields, defaults: seq<(string, Json)>, k: string)
    requires k !in DefaultKeysOf(defaults)
    ensures Lookup(ApplyDefaults(setting, defaults), k) == Lookup(setting, k)
    decreases |defaults|
  {
    if |defaults| > 0 {
      DefaultKeysTail(defaults);
      var first := Defaulted(setting, defaults[0].0, defaults[0].1);
      ApplyDefaultsMiss(first, defaults[1..], k);
      DefaultedSpec(setting, defaults[0].0, defaults[0].1);
    }
  }

  /** A default's key ends up with its old value or the default. */
  lemma {:induction false} ApplyDefaultsHit(setting: Fields, defaults: seq<(string, Json)>, i: nat)
    requires NoDuplicates(DefaultKeysOf(defaults)) && i < |defaults|
    ensures Lookup(ApplyDefaults(setting, defaults), defaults[i].0) == Some(GetOr(setting, defaults[i].0, defaults[i].1))
    decreases |defaults|
  {
    DefaultKeysTail(defaults);
    var ks := DefaultKeysOf(defaults);
    var first := Defaulted(setting, defaults[0].0, defaults[0].1);
    var rest := defaults[1..];
    DefaultedSpec(setting, defaults[0].0, defaults[0].1);
    if i == 0 {
      assert defaults[0].0 !in DefaultKeysOf(rest) by {
        forall b | 0 <= b < |rest| ensures DefaultKeysOf(rest)[b] != defaults[0].0 {
          assert DefaultKeysOf(rest)[b] == ks[b + 1];
        }
      }
      ApplyDefaultsMiss(first, rest, defaults[0].0);
    } else {
      assert NoDuplicates(DefaultKeysOf(rest)) by {
        forall a, b | 0 <= a < b < |rest| ensures DefaultKeysOf(rest)[a] != DefaultKeysOf(rest)[b] {
          assert DefaultKeysOf(rest)[a] == ks[a + 1];
          assert DefaultKeysOf(rest)[b] == ks[b + 1];
        }
      }
      assert defaults[i] == rest[i - 1];
      ApplyDefaultsHit(first, rest, i - 1);
      assert ks[i] != ks[0];
      assert Lookup(first, defaults[i].0) == Lookup(setting, defaults[i].0);
    }
  }

  /** The old keys keep their order, new ones coming after. */
  lemma {:induction false} ApplyDefaultsKeys(setting: Fields, defaults: seq<(string, Json)>)
    ensures Keys(setting) <= Keys(ApplyDefaults(setting, defaults))
    decreases |defaults|
  {
    if |defaults| > 0 {
      var first := Defaulted(setting, defaults[0].0, defaults[0].1);
      ApplyDefaultsKeys(first, defaults[1..]);
      DefaultedSpec(setting, defaults[0].0, defaults[0].1);
    }
  }

  /** The icon assignment sets the icon and nothing else. */
  lemma WithIconSpec(setting: Fields)
    ensures Lookup(WithIcon(setting), IconKey) ==
      Some(if Truthy(GetOr(setting, IconKey, Str(DefaultIcon))) then GetOr(setting, IconKey, Str(DefaultIcon)) else Str(DefaultIcon))
    ensures forall k :: k != IconKey ==> Lookup(WithIcon(setting), k) == Lookup(setting, k)
    ensures Keys(setting) <= Keys(WithIcon(setting))
  {
    var img := GetOr(setting, IconKey, Str(DefaultIcon));
    AssignLookup(setting, IconKey, if Truthy(img) then img else Str(DefaultIcon));
    AssignKeys(setting, IconKey, if Truthy(img) then img else Str(DefaultIcon));
  }

  lemma WithIconOther(setting: Fields, k: string)
    requires k != IconKey
    ensures Lookup(WithIcon(setting), k) == Lookup(setting, k)
  {
    WithIconSpec(setting);
  }

  lemma DefaultKeysDistinct(name: string)
    ensures NoDuplicates(DefaultKeysOf(LeadingDefaults(name)))
    ensures NoDuplicates(DefaultKeysOf(TrailingDefaults))
    ensures IconKey !in DefaultKeysOf(TrailingDefaults)
    ensures forall k :: k in DefaultKeysOf(LeadingDefaults(name)) ==> k != IconKey && k !in DefaultKeysOf(TrailingDefaults)
  {
    var lead := DefaultKeysOf(LeadingDefaults(name));
    assert lead == ["displayname", "unit", "run-result-plot", "individual-info-plot", "pareto-optimlity-plot"];
    assert DefaultKeysOf(TrailingDefaults) == ["min-boundary", "max-boundary"];
  }

  /** The requirements `WithDefaults` meets: each run of defaults has
      distinct keys, and the runs and the icon key do not share a key. */
  predicate Separate(lead: seq<(string, Json)>, trail: seq<(string, Json)>)
  {
    && NoDuplicates(DefaultKeysOf(lead)) && NoDuplicates(DefaultKeysOf(trail))
    && IconKey !in DefaultKeysOf(trail)
    && forall k :: k in DefaultKeysOf(lead) ==> k != IconKey && k !in DefaultKeysOf(trail)
  }

  function Stages(setting: Fields, lead: seq<(string, Json)>, trail: seq<(string, Json)>): Fields
  {
    ApplyDefaults(WithIcon(ApplyDefaults(setting, lead)), trail)
  }

  /** The leading defaults survive the later stages. */
  lemma StagesLead(setting: Fields, lead: seq<(string, Json)>, trail: seq<(string, Json)>)
    requires Separate(lead, trail)
    ensures forall d :: d in lead ==> Lookup(Stages(setting, lead, trail), d.0) == Some(GetOr(setting, d.0, d.1))
  {
    forall d | d in lead
      ensures Lookup(Stages(setting, lead, trail), d.0) == Some(GetOr(setting, d.0, d.1))
    {
      var i :| 0 <= i < |lead| && lead[i] == d;
      assert DefaultKeysOf(lead)[i] == d.0;
      var s1 := ApplyDefaults(setting, lead);
      ApplyDefaultsHit(setting, lead, i);
      WithIconOther(s1, d.0);
      ApplyDefaultsMiss(WithIcon(s1), trail, d.0);
    }
  }

  /** The trailing defaults read the original settings. */
  lemma StagesTrail(setting: Fields, lead: seq<(string, Json)>, trail: seq<(string, Json)>)
    requires Separate(lead, trail)
    ensures forall d :: d in trail ==> Lookup(Stages(setting, lead, trail), d.0) == Some(GetOr(setting, d.0, d.1))
  {
    forall d | d in trail
      ensures Lookup(Stages(setting, lead, trail), d.0) == Some(GetOr(setting, d.0, d.1))
    {
      var i :| 0 <= i < |trail| && trail[i] == d;
      assert DefaultKeysOf(trail)[i] == d.0;
      var s1 := ApplyDefaults(setting, lead);
      ApplyDefaultsMiss(setting, lead, d.0);
      WithIconOther(s1, d.0);
      ApplyDefaultsHit(WithIcon(s1), trail, i);
    }
  }

  /** The icon reads the original settings. */
  lemma StagesIcon(setting: Fields, lead: seq<(string, Json)>, trail: seq<(string, Json)>)
    requires Separate(lead, trail)
    ensures Lookup(Stages(setting, lead, trail), IconKey) == Some(
      if Truthy(GetOr(setting, IconKey, Str(DefaultIcon))) then GetOr(setting, IconKey, Str(DefaultIcon))
      else Str(DefaultIcon))
  {
    var s1 := ApplyDefaults(setting, lead);
    ApplyDefaultsMiss(setting, lead, IconKey);
    WithIconSpec(s1);
    ApplyDefaultsMiss(WithIcon(s1), trail, IconKey);
  }

  /** Other keys are untouched and the old keys keep their order. */
  lemma StagesOthers(setting: Fields, lead: seq<(string, Json)>, trail: seq<(string, Json)>)
    requires Separate(lead, trail)
    ensures Keys(setting) <= Keys(Stages(setting, lead, trail))
    ensures forall k :: k !in DefaultKeysOf(lead) && k != IconKey && k !in DefaultKeysOf(trail) ==>
      Lookup(Stages(setting, lead, trail), k) == Lookup(setting, k)
  {
    var s1 := ApplyDefaults(setting, lead);
    ApplyDefaultsKeys(setting, lead);
    WithIconSpec(s1);
    ApplyDefaultsKeys(WithIcon(s1), trail);
    forall k | k !in DefaultKeysOf(lead) && k != IconKey && k !in DefaultKeysOf(trail)
      ensures Lookup(Stages(setting, lead, trail), k) == Lookup(setting, k)
    {
      ApplyDefaultsMiss(setting, lead, k);
      WithIconOther(s1, k);
      ApplyDefaultsMiss(WithIcon(s1), trail, k);
    }
  }

  /** Every default key is present afterwards with the value the settings gave
      it, or its default when absent (the icon also when falsy); every other
      key keeps its value, and the keys of the settings keep their order. */
  lemma WithDefaultsSpec(name: string, setting: Fields)
    ensures forall d :: d in LeadingDefaults(name) ==>
      Lookup(WithDefaults(name, setting), d.0) == Some(GetOr(setting, d.0, d.1))
    ensures forall d :: d in TrailingDefaults ==>
      Lookup(WithDefaults(name, setting), d.0) == Some(GetOr(setting, d.0, d.1))
    ensures Lookup(WithDefaults(name, setting), IconKey) == Some(
      if Truthy(GetOr(setting, IconKey, Str(DefaultIcon))) then GetOr(setting, IconKey, Str(DefaultIcon))
      else Str(DefaultIcon))
    ensures Keys(setting) <= Keys(WithDefaults(name, setting))
    ensures forall k :: k !in DefaultKeysOf(LeadingDefaults(name)) && k != IconKey && k !in DefaultKeysOf(TrailingDefaults) ==>
      Lookup(WithDefaults(name, setting), k) == Lookup(setting, k)
  {
    DefaultKeysDistinct(name);
    StagesLead(setting, LeadingDefaults(name), TrailingDefaults);
    StagesTrail(setting, LeadingDefaults(name), TrailingDefaults);
    StagesIcon(setting, LeadingDefaults(name), TrailingDefaults);
    StagesOthers(setting, LeadingDefaults(name), TrailingDefaults);
  }

  /** The call succeeds exactly when `results` is a dict of dicts; the
      measurements keep their names and order, and each holds its completed
      settings. */
  lemma MeasInfoSpec(configs: Json)
    ensures MeasInfo(configs).Ok? <==>
      && configs.Obj? && HasKey(configs.fields, "results")
      && Lookup(configs.fields, "results").value.Obj?
      && forall i :: 0 <= i < |Lookup(configs.fields, "results").value.fields| ==>
           Lookup(configs.fields, "results").value.fields[i].1.Obj?
    ensures configs.Obj? && !HasKey(configs.fields, "results") ==> MeasInfo(configs) == Err(KeyError("results"))
    ensures MeasInfo(configs).Ok? ==>
      var results := Lookup(configs.fields, "results").value.fields;
      var out := MeasInfo(configs).value;
      && Keys(out) == Keys(results)
      && forall i :: 0 <= i < |out| ==> out[i].1 == Obj(WithDefaults(results[i].0, results[i].1.fields))
  {
    if configs.Obj? && HasKey(configs.fields, "results") && Lookup(configs.fields, "results").value.Obj? {
      var results := Lookup(configs.fields, "results").value.fields;
      assert MeasInfo(configs) == AllOk(MapSeq(results, DefaultEntry));
      CompletedOk(results);
      if AllOk(MapSeq(results, DefaultEntry)).Ok? {
        CompletedEntries(results);
      }
    }
  }

  /** Completing a results dict succeeds exactly when every entry is a dict. */
  lemma CompletedOk(results: Fields)
    ensures AllOk(MapSeq(results, DefaultEntry)).Ok? <==> forall i :: 0 <= i < |results| ==> results[i].1.Obj?
  {
    var rs := MapSeq(results, DefaultEntry);
    AllOkSpec(rs);
    forall i | 0 <= i < |results| ensures rs[i].Ok? <==> results[i].1.Obj? {
      assert rs[i] == DefaultEntry(results[i]);
    }
  }

  /** The completed dict keeps the names in order, each with its completed
      settings. */
  lemma CompletedEntries(results: Fields)
    requires forall i :: 0 <= i < |results| ==> results[i].1.Obj?
    ensures AllOk(MapSeq(results, DefaultEntry)).Ok?
    ensures var out := AllOk(MapSeq(results, DefaultEntry)).value;
      && Keys(out) == Keys(results)
      && forall i :: 0 <= i < |out| ==> out[i].1 == Obj(WithDefaults(results[i].0, results[i].1.fields))
  {
    AllOkMap(results, DefaultEntry);
    var out := AllOk(MapSeq(results, DefaultEntry)).value;
    forall i | 0 <= i < |out|
      ensures out[i] == (results[i].0, Obj(WithDefaults(results[i].0, results[i].1.fields)))
    {
      assert DefaultEntry(results[i]) == Ok(out[i]);
    }
    assert Keys(out) == Keys(results) by {
      forall i | 0 <= i < |out| ensures Keys(out)[i] == Keys(results)[i] {
        assert out[i].0 == results[i].0;
      }
    }
  }


  // ----------------------------------------------------- get_best_individuals

  /** The chromosomes of the run: generation to individual to the parsed
      chromosome, None when the individual has no chromosome file. */
  type Chromosomes = map<int, map<string, Option<Json>>>

  /** `results["fitness"]` compared with a number: a missing key is a
      KeyError, and a value that is not a number cannot be compared. */
  function Fitness(fields: Fields): Result<real>
  {
    if !HasKey(fields, "fitness") then Err(KeyError("fitness"))
    else
      var v := Lookup(fields, "fitness").value;
      if IsNumber(v) then Ok(NumValue(v)) else Err(TypeError)
  }

  /** `chromosomes[gen][ind]`. */
  function ChromosomeOf(chromosomes: Chromosomes, gen: int, ind: string): Result<Option<Json>>
  {
    if gen !in chromosomes then Err(KeyError(IntToString(gen)))
    else if ind !in chromosomes[gen] then Err(KeyError(ind))
    else Ok(chromosomes[gen][ind])
  }

  /** The `individual`, `results` and `chromosome` of a generation's best. */
  datatype Best = Best(individual: Option<string>, results: IndResult, chromosome: Option<Json>)

  /** The scan over one generation: the running best fitness starts at 0 and
      is replaced only by a strictly larger one; individuals without results
      are skipped. */
  function BestOfGeneration(gen: int, inds: seq<(string, IndResult)>, chromosomes: Chromosomes): Result<(real, Best)>
    decreases |inds|
  {
    if |inds| == 0 then Ok((0.0, Best(None, None, None)))
    else
      var acc :- BestOfGeneration(gen, inds[..|inds| - 1], chromosomes);
      var entry := inds[|inds| - 1];
      if entry.1.None? then Ok(acc)
      else
        var fitness :- Fitness(entry.1.value);
        if fitness > acc.0 then
          var chromosome :- ChromosomeOf(chromosomes, gen, entry.0);
          Ok((fitness, Best(Some(entry.0), entry.1, chromosome)))
        else Ok(acc)
  }

  /** `get_best_individuals`: one entry per generation, in order. */
  function BestIndividuals(gens: GenResults, chromosomes: Chromosomes): Result<seq<(int, Best)>>
    decreases |gens|
  {
    if |gens| == 0 then Ok([])
    else
      var prev :- BestIndividuals(gens[..|gens| - 1], chromosomes);
      var gen := gens[|gens| - 1];
      var best :- BestOfGeneration(gen.0, gen.1, chromosomes);
      Ok(prev + [(gen.0, best.1)])
  }

  lemma {:induction false} BestOfGenerationPrefixErr(gen: int, inds: seq<(string, IndResult)>, chromosomes: Chromosomes, k: nat)
    requires k <= |inds| && BestOfGeneration(gen, inds[..k], chromosomes).Err?
    ensures BestOfGeneration(gen, inds, chromosomes) == BestOfGeneration(gen, inds[..k], chromosomes)
    decreases |inds|
  {
    if k < |inds| {
      assert inds[..|inds| - 1][..k] == inds[..k];
      BestOfGenerationPrefixErr(gen, inds[..|inds| - 1], chromosomes, k);
    } else {
      assert inds[..k] == inds;
    }
  }

  lemma {:induction false} BestIndividualsPrefixErr(gens: GenResults, chromosomes: Chromosomes, k: nat)
    requires k <= |gens| && BestIndividuals(gens[..k], chromosomes).Err?
    ensures BestIndividuals(gens, chromosomes) == BestIndividuals(gens[..k], chromosomes)
    decreases |gens|
  {
    if k < |gens| {
      assert gens[..|gens| - 1][..k] == gens[..k];
      BestIndividualsPrefixErr(gens[..|gens| - 1], chromosomes, k);
    } else {
      assert gens[..k] == gens;
    }
  }

  /** The inner loop over one generation's individuals. */
  method BestOfGenerationOf(gen: int, inds: seq<(string, IndResult)>, chromosomes: Chromosomes) returns (r: Result<Best>)
    ensures BestOfGeneration(gen, inds, chromosomes).Ok? ==> r == Ok(BestOfGeneration(gen, inds, chromosomes).value.1)
    ensures BestOfGeneration(gen, inds, chromosomes).Err? ==> r == Err(BestOfGeneration(gen, inds, chromosomes).error)
  {
    var bestFitness := 0.0;
    var bestInd: Option<string> := None;
    var bestResult: IndResult := None;
    var bestChromosome: Option<Json> := None;
    for i := 0 to |inds|
      invariant BestOfGeneration(gen, inds[..i], chromosomes) == Ok((bestFitness, Best(bestInd, bestResult, bestChromosome)))
    {
      assert inds[..i + 1][..i] == inds[..i];
      var (ind, results) := inds[i];
      if results.Some? {
        var indFitness := Fitness(results.value);
        if indFitness.Err? {
          BestOfGenerationPrefixErr(gen, inds, chromosomes, i + 1);
          return Err(indFitness.error);
        }
        if indFitness.value > bestFitness {
          var chromosome := ChromosomeOf(chromosomes, gen, ind);
          if chromosome.Err? {
            BestOfGenerationPrefixErr(gen, inds, chromosomes, i + 1);
            return Err(chromosome.error);
          }
          bestFitness := indFitness.value;
          bestInd := Some(ind);
          bestResult := results;
          bestChromosome := chromosome.value;
        }
      }
    }
    assert inds[..|inds|] == inds;
    return Ok(Best(bestInd, bestResult, bestChromosome));
  }

  /** `get_best_individuals` over the results and chromosomes of every
      generation. */
  method GetBestIndividuals(gens: GenResults, chromosomes: Chromosomes) returns (r: Result<seq<(int, Best)>>)
    ensures r == BestIndividuals(gens, chromosomes)
  {
    var bestIndividuals: seq<(int, Best)> := [];
    for g := 0 to |gens|
      invariant BestIndividuals(gens[..g], chromosomes) == Ok(bestIndividuals)
    {
      assert gens[..g + 1][..g] == gens[..g];
      var best := BestOfGenerationOf(gens[g].0, gens[g].1, chromosomes);
      if best.Err? {
        BestIndividualsPrefixErr(gens, chromosomes, g + 1);
        return Err(best.error);
      }
      bestIndividuals := bestIndividuals + [(gens[g].0, best.value)];
    }
    assert gens[..|gens|] == gens;
    return Ok(bestIndividuals);
  }

  /** A generation's best: every individual with results has a fitness no
      larger than the best one, which is at least 0. With no individual
      above 0 there is no best; otherwise the best is the first individual
      reaching the largest fitness, with its results and chromosome. */
  lemma {:induction false} BestOfGenerationSpec(gen: int, inds: seq<(string, IndResult)>, chromosomes: Chromosomes)
    ensures BestOfGeneration(gen, inds, chromosomes).Ok? ==>
      var f := BestOfGeneration(gen, inds, chromosomes).value.0;
      var b := BestOfGeneration(gen, inds, chromosomes).value.1;
      && 0.0 <= f
      && (forall j :: 0 <= j < |inds| && inds[j].1.Some? ==>
            Fitness(inds[j].1.value).Ok? && Fitness(inds[j].1.value).value <= f)
      && (b.individual.None? <==> f == 0.0)
      && (b.individual.None? ==> b.results.None? && b.chromosome.None?)
      && (b.individual.Some? ==>
            exists k :: 0 <= k < |inds| && inds[k].0 == b.individual.value && inds[k].1 == b.results
              && inds[k].1.Some? && Fitness(inds[k].1.value) == Ok(f)
              && ChromosomeOf(chromosomes, gen, inds[k].0) == Ok(b.chromosome)
              && forall j :: 0 <= j < k && inds[j].1.Some? ==> Fitness(inds[j].1.value).value < f)
    decreases |inds|
  {
    if |inds| > 0 {
      var init := inds[..|inds| - 1];
      BestOfGenerationSpec(gen, init, chromosomes);
      assert forall j :: 0 <= j < |init| ==> init[j] == inds[j];
      var r := BestOfGeneration(gen, inds, chromosomes);
      if r.Ok? {
        var acc := BestOfGeneration(gen, init, chromosomes).value;
        var f := r.value.0;
        var b := r.value.1;
        var last := |inds| - 1;
        if r.value != acc {
          forall j | 0 <= j < last && inds[j].1.Some? ensures Fitness(inds[j].1.value).value < f {
            assert init[j] == inds[j];
          }
          assert inds[last].0 == b.individual.value;
        } else if b.individual.Some? {
          var k :| 0 <= k < |init| && init[k].0 == b.individual.value && init[k].1 == b.results
              && init[k].1.Some? && Fitness(init[k].1.value) == Ok(f)
              && ChromosomeOf(chromosomes, gen, init[k].0) == Ok(b.chromosome)
              && forall j :: 0 <= j < k && init[j].1.Some? ==> Fitness(init[j].1.value).value < f;
          assert inds[k] == init[k];
        }
      }
    }
  }

  /** The scan of a generation fails exactly when an individual with
      results lacks a numeric fitness, or when the chromosome of a new best
      is missing; with every chromosome present only the former remains. */
  lemma {:induction false} BestOfGenerationOk(gen: int, inds: seq<(string, IndResult)>, chromosomes: Chromosomes)
    ensures BestOfGeneration(gen, inds, chromosomes).Ok? ==>
      forall j :: 0 <= j < |inds| && inds[j].1.Some? ==> Fitness(inds[j].1.value).Ok?
    ensures gen in chromosomes && (forall j :: 0 <= j < |inds| ==> inds[j].0 in chromosomes[gen]) ==>
      (BestOfGeneration(gen, inds, chromosomes).Ok? <==>
         forall j :: 0 <= j < |inds| && inds[j].1.Some? ==> Fitness(inds[j].1.value).Ok?)
    ensures BestOfGeneration(gen, inds, chromosomes).Err? ==>
      BestOfGeneration(gen, inds, chromosomes).error in {KeyError("fitness"), TypeError, KeyError(IntToString(gen))}
      || exists j :: 0 <= j < |inds| && BestOfGeneration(gen, inds, chromosomes).error == KeyError(inds[j].0)
    decreases |inds|
  {
    if |inds| > 0 {
      var init := inds[..|inds| - 1];
      BestOfGenerationOk(gen, init, chromosomes);
      assert forall j :: 0 <= j < |init| ==> init[j] == inds[j];
      if BestOfGeneration(gen, init, chromosomes).Err? {
        var e := BestOfGeneration(gen, init, chromosomes).error;
        if e !in {KeyError("fitness"), TypeError, KeyError(IntToString(gen))} {
          var j :| 0 <= j < |init| && e == KeyError(init[j].0);
          assert inds[j] == init[j];
        }
      }
    }
  }

  /** One entry per generation, with that generation's best. */
  lemma {:induction false} BestIndividualsSpec(gens: GenResults, chromosomes: Chromosomes)
    ensures BestIndividuals(gens, chromosomes).Ok? <==>
      forall g :: 0 <= g < |gens| ==> BestOfGeneration(gens[g].0, gens[g].1, chromosomes).Ok?
    ensures BestIndividuals(gens, chromosomes).Ok? ==>
      var out := BestIndividuals(gens, chromosomes).value;
      && |out| == |gens|
      && forall g :: 0 <= g < |gens| ==>
           out[g] == (gens[g].0, BestOfGeneration(gens[g].0, gens[g].1, chromosomes).value.1)
    decreases |gens|
  {
    if |gens| > 0 {
      var init := gens[..|gens| - 1];
      BestIndividualsSpec(init, chromosomes);
      assert forall g :: 0 <= g < |init| ==> init[g] == gens[g];
    }
  }

  // ------------------------------------------------------ get_number_of_genes

  /** `for gene in chromosome`: a list yields its items, a dict its keys and a
      string its characters; a number or a bool is not iterable. */
  function Iterate(j: Json): Result<seq<Json>>
  {
    match j
    case Arr(items) => Ok(items)
    case Obj(fields) => Ok(seq(|fields|, i requires 0 <= i < |fields| => Str(fields[i].0)))
    case Str(s) => Ok(seq(|s|, i requires 0 <= i < |s| => Str([s[i]])))
    case _ => Err(TypeError)
  }

  /** `gene["layer"] == genename`. */
  function IsLayer(gene: Json, name: string): (r: Result<bool>)
    ensures r.Ok? <==> gene.Obj? && HasKey(gene.fields, "layer")
    ensures r.Ok? ==> r.value == (Lookup(gene.fields, "layer").value == Str(name))
    ensures r.Err? ==> r.error in {TypeError, KeyError("layer")}
  {
    var layer :- GetItem(gene, "layer");
    Ok(layer == Str(name))
  }

  /** The inner loop: the genes of one chromosome whose layer is `name`. */
  function CountIn(genes: seq<Json>, name: string): Result<nat>
    decreases |genes|
  {
    if |genes| == 0 then Ok(0)
    else
      var prev :- CountIn(genes[..|genes| - 1], name);
      var hit :- IsLayer(genes[|genes| - 1], name);
      Ok(if hit then prev + 1 else prev)
  }

  /** A chromosome the loop skips: no chromosome file, or a JSON `null`. */
  predicate Absent(chromosome: Option<Json>)
  {
    chromosome.None? || chromosome.value == Null
  }

  /** `get_number_of_genes` over the chromosomes of the generation. */
  function CountGenes(chromosomes: seq<Option<Json>>, name: string): Result<nat>
    decreases |chromosomes|
  {
    if |chromosomes| == 0 then Ok(0)
    else
      var prev :- CountGenes(chromosomes[..|chromosomes| - 1], name);
      var chromosome := chromosomes[|chromosomes| - 1];
      if Absent(chromosome) then Ok(prev)
      else
        var genes :- Iterate(chromosome.value);
        var n :- CountIn(genes, name);
        Ok(prev + n)
  }

  lemma {:induction false} CountInPrefixErr(genes: seq<Json>, name: string, k: nat)
    requires k <= |genes| && CountIn(genes[..k], name).Err?
    ensures CountIn(genes, name) == CountIn(genes[..k], name)
    decreases |genes|
  {
    if k < |genes| {
      assert genes[..|genes| - 1][..k] == genes[..k];
      CountInPrefixErr(genes[..|genes| - 1], name, k);
    } else {
      assert genes[..k] == genes;
    }
  }

  lemma {:induction false} CountGenesPrefixErr(chromosomes: seq<Option<Json>>, name: string, k: nat)
    requires k <= |chromosomes| && CountGenes(chromosomes[..k], name).Err?
    ensures CountGenes(chromosomes, name) == CountGenes(chromosomes[..k], name)
    decreases |chromosomes|
  {
    if k < |chromosomes| {
      assert chromosomes[..|chromosomes| - 1][..k] == chromosomes[..k];
      CountGenesPrefixErr(chromosomes[..|chromosomes| - 1], name, k);
    } else {
      assert chromosomes[..k] == chromosomes;
    }
  }

  /** The inner loop over the genes of one chromosome. */
  method CountInOf(genes: seq<Json>, name: string) returns (r: Result<nat>)
    ensures r == CountIn(genes, name)
  {
    var count := 0;
    for j := 0 to |genes|
      invariant CountIn(genes[..j], name) == Ok(count)
    {
      assert genes[..j + 1][..j] == genes[..j];
      var layer := GetItem(genes[j], "layer");
      if layer.Err? {
        CountInPrefixErr(genes, name, j + 1);
        return Err(layer.error);
      }
      if layer.value == Str(name) {
        count := count + 1;
      }
    }
    assert genes[..|genes|] == genes;
    return Ok(count);
  }

  /** The counting loop of `get_number_of_genes`. */
  method NumberOfGenes(chromosomes: seq<Option<Json>>, name: string) returns (r: Result<nat>)
    ensures r == CountGenes(chromosomes, name)
  {
    var count := 0;
    for i := 0 to |chromosomes|
      invariant CountGenes(chromosomes[..i], name) == Ok(count)
    {
      assert chromosomes[..i + 1][..i] == chromosomes[..i];
      var chromosome := chromosomes[i];
      if !Absent(chromosome) {
        var genes := Iterate(chromosome.value);
        if genes.Err? {
          CountGenesPrefixErr(chromosomes, name, i + 1);
          return Err(genes.error);
        }
        var n := CountInOf(genes.value, name);
        if n.Err? {
          CountGenesPrefixErr(chromosomes, name, i + 1);
          return Err(n.error);
        }
        count := count + n.value;
      }
    }
    assert chromosomes[..|chromosomes|] == chromosomes;
    return Ok(count);
  }

  /** Every gene is a dict with a `layer`. */
  predicate AllLayered(genes: seq<Json>)
  {
    forall i :: 0 <= i < |genes| ==> genes[i].Obj? && HasKey(genes[i].fields, "layer")
  }

  function Layers(genes: seq<Json>): (ls: seq<Json>)
    requires AllLayered(genes)
    ensures |ls| == |genes|
    ensures forall i :: 0 <= i < |genes| ==> ls[i] == Lookup(genes[i].fields, "layer").value
  {
    seq(|genes|, i requires 0 <= i < |genes| && AllLayered(genes) => Lookup(genes[i].fields, "layer").value)
  }

  /** The count of one chromosome succeeds exactly when every gene is a dict
      with a `layer`, and is then the number of occurrences of the name
      among the layers. */
  lemma CountInSpec(genes: seq<Json>, name: string)
    ensures CountIn(genes, name).Ok? <==> AllLayered(genes)
    ensures CountIn(genes, name).Ok? ==> CountIn(genes, name).value == multiset(Layers(genes))[Str(name)]
    ensures CountIn(genes, name).Err? ==> CountIn(genes, name).error in {TypeError, KeyError("layer")}
  {
    CountInOk(genes, name);
    if AllLayered(genes) {
      CountInCount(genes, name);
    }
  }

  lemma {:induction false} CountInOk(genes: seq<Json>, name: string)
    ensures CountIn(genes, name).Ok? <==> AllLayered(genes)
    ensures CountIn(genes, name).Err? ==> CountIn(genes, name).error in {TypeError, KeyError("layer")}
    decreases |genes|
  {
    if |genes| > 0 {
      var init := genes[..|genes| - 1];
      var last := genes[|genes| - 1];
      CountInOk(init, name);
      assert AllLayered(genes) <==> AllLayered(init) && last.Obj? && HasKey(last.fields, "layer") by {
        assert forall i :: 0 <= i < |init| ==> init[i] == genes[i];
      }
    }
  }

  lemma {:induction false} CountInCount(genes: seq<Json>, name: string)
    requires AllLayered(genes)
    ensures CountIn(genes, name).Ok?
    ensures CountIn(genes, name).value == multiset(Layers(genes))[Str(name)]
    decreases |genes|
  {
    if |genes| > 0 {
      var init := genes[..|genes| - 1];
      var x := LayersSnoc(genes);
      CountInCount(init, name);
      var m := multiset(Layers(init));
      assert multiset(Layers(genes)) == m + multiset{x};
    }
  }

  /** The layers of all but the last gene, then the last gene's. */
  lemma LayersSnoc(genes: seq<Json>) returns (x: Json)
    requires AllLayered(genes) && |genes| > 0
    ensures AllLayered(genes[..|genes| - 1])
    ensures x == Lookup(genes[|genes| - 1].fields, "layer").value
    ensures Layers(genes) == Layers(genes[..|genes| - 1]) + [x]
  {
    var init := genes[..|genes| - 1];
    assert forall i :: 0 <= i < |init| ==> init[i] == genes[i];
    x := Lookup(genes[|genes| - 1].fields, "layer").value;
  }

  /** Counting over two runs of chromosomes adds up, and a failure in the
      first run is the failure of the whole. */
  lemma {:induction false} CountGenesAppend(a: seq<Option<Json>>, b: seq<Option<Json>>, name: string)
    ensures CountGenes(a, name).Err? ==> CountGenes(a + b, name) == CountGenes(a, name)
    ensures CountGenes(a, name).Ok? && CountGenes(b, name).Ok? ==>
      CountGenes(a + b, name) == Ok(CountGenes(a, name).value + CountGenes(b, name).value)
    ensures CountGenes(a + b, name).Ok? ==> CountGenes(a, name).Ok? && CountGenes(b, name).Ok?
    decreases |b|
  {
    if |b| == 0 {
      assert a + b == a;
    } else {
      var b' := b[..|b| - 1];
      CountGenesAppend(a, b', name);
      assert (a + b)[..|a + b| - 1] == a + b';
      assert (a + b)[|a + b| - 1] == b[|b| - 1];
    }
    if CountGenes(a, name).Err? {
      assert (a + b)[..|a|] == a;
      CountGenesPrefixErr(a + b, name, |a|);
    }
  }

  /** Absent chromosomes count nothing, and a single present one counts its
      genes named `name`. */
  lemma CountGenesSingle(chromosome: Option<Json>, name: string)
    ensures Absent(chromosome) ==> CountGenes([chromosome], name) == Ok(0)
    ensures !Absent(chromosome) && chromosome.value.Arr? ==>
      CountGenes([chromosome], name) == CountIn(chromosome.value.items, name)
    ensures !Absent(chromosome) && (chromosome.value.Bool? || chromosome.value.Int? || chromosome.value.Float?) ==>
      CountGenes([chromosome], name) == Err(TypeError)
  {
    assert [chromosome][..0] == [];
  }
}
