/** Parsing of the headerless `crossover_parents.csv` log into offspring
    records: once as a dictionary keyed by offspring, once as a table. */
module Crossover {

  import opened Wrappers
  import opened Py
  import opened PyStr

  /** One CSV row: `Generation: <n>`, `Parent_1: (<id>, <n>)`,
      `Parent_2: (<id>, <n>)`, `New_Individual: <id>`. */
  datatype CsvRow = CsvRow(generation: string, parent1: string, parent2: string, newIndividual: string)

  /** The value stored for one offspring; crossover points stay strings. */
  datatype Record = Record(generation: int, parent1: string, crossover1: string, parent2: string, crossover2: string)

  /** One row of the parents table. */
  datatype TableRow = TableRow(generation: int, individual: string, parent1: string, crossover1: string,
                               parent2: string, crossover2: string)

  const GenerationLabel := "Generation: "
  const Parent1Label := "Parent_1: "
  const Parent2Label := "Parent_2: "
  const IndividualLabel := "New_Individual: "

  /** A parent cell with its tag and all parentheses removed. */
  function CleanParent(cell: string, tag: string): string
    requires |tag| > 0
  {
    ReplaceAll(ReplaceAll(ReplaceAll(cell, tag, ""), "(", ""), ")", "")
  }

  /** `p.split(",")[0], p.split(",")[1]` of the cleaned cell; IndexError
      when there is no comma. */
  function ParseParent(cell: string, tag: string): Result<(string, string)>
    requires |tag| > 0
  {
    var parts := Split(CleanParent(cell, tag), ',');
    if |parts| < 2 then Err(IndexError) else Ok((parts[0], parts[1]))
  }

  /** The name is the text before the first comma; the crossover point is the
      text between the first comma and the next one (or the end), leading
      space included; no comma is an IndexError. */
  lemma ParseParentSpec(cell: string, tag: string)
    requires |tag| > 0
    ensures var p := CleanParent(cell, tag);
      var i := Find(p, ',');
      && (ParseParent(cell, tag).Ok? <==> i >= 0)
      && (i < 0 ==> ParseParent(cell, tag) == Err(IndexError))
      && (i >= 0 ==>
            var rest := p[i + 1..];
            var j := Find(rest, ',');
            ParseParent(cell, tag) == Ok((p[..i], if j < 0 then rest else rest[..j])))
  {
    SplitFirstTwo(CleanParent(cell, tag), ',');
  }

  /** `int(...)` of the generation cell with its label removed. */
  function GenerationOf(row: CsvRow): Option<int>
  {
    ParseInt(ReplaceAll(row.generation, GenerationLabel, ""))
  }

  /** One row as `(offspring, record)`: ValueError when the generation is not
      an integer, IndexError when a parent cell has no comma. */
  function ParseRow(row: CsvRow): Result<(string, Record)>
  {
    var individual := ReplaceAll(row.newIndividual, IndividualLabel, "");
    var gen := GenerationOf(row);
    if gen.None? then Err(ValueError)
    else
      var p1 :- ParseParent(row.parent1, Parent1Label);
      var p2 :- ParseParent(row.parent2, Parent2Label);
      Ok((individual, Record(gen.value, p1.0, p1.1, p2.0, p2.1)))
  }

  /** Every row parsed, in file order. */
  function Entries(rows: seq<CsvRow>): (es: seq<Result<(string, Record)>>)
    ensures |es| == |rows|
    ensures forall i :: 0 <= i < |rows| ==> es[i] == ParseRow(rows[i])
  {
    seq(|rows|, i requires 0 <= i < |rows| => ParseRow(rows[i]))
  }

  /** The dictionary built row by row: later rows for the same offspring
      overwrite earlier ones; the first failing row's error propagates. */
  function CrossoverDict(rows: seq<CsvRow>): Result<map<string, Record>>
  {
    DictOf(Entries(rows))
  }

  /** `_get_crossover_parents`: the loop filling `crossover_dict`. */
  method GetCrossoverParents(rows: seq<CsvRow>) returns (r: Result<map<string, Record>>)
    ensures r == CrossoverDict(rows)
  {
    ghost var es := Entries(rows);
    var crossoverDict: map<string, Record> := map[];
    for idx := 0 to |rows|
      invariant DictOf(es[..idx]) == Ok(crossoverDict)
    {
      assert es[..idx + 1][..idx] == es[..idx];
      var entry := ParseRow(rows[idx]);
      if entry.Err? {
        DictOfOk(es[..idx]);
        forall j | 0 <= j < idx ensures es[j].Ok? {
          assert es[j] == es[..idx][j];
        }
        DictOfFirstError(es, idx);
        return Err(entry.error);
      }
      var (individual, record) := entry.value;
      crossoverDict := crossoverDict[individual := record];
    }
    assert es[..|rows|] == es;
    return Ok(crossoverDict);
  }

  /** The dictionary exists exactly when every row parses. */
  lemma CrossoverDictOk(rows: seq<CsvRow>)
    ensures CrossoverDict(rows).Ok? <==> forall i :: 0 <= i < |rows| ==> ParseRow(rows[i]).Ok?
  {
    DictOfOk(Entries(rows));
  }

  /** Its keys are exactly the offspring named by the rows. */
  lemma CrossoverDictKeys(rows: seq<CsvRow>, k: string)
    requires CrossoverDict(rows).Ok?
    ensures k in CrossoverDict(rows).value <==>
      exists i :: 0 <= i < |rows| && ParseRow(rows[i]).Ok? && ParseRow(rows[i]).value.0 == k
  {
    var es := Entries(rows);
    DictOfKeys(es, k);
    if exists i :: 0 <= i < |es| && es[i].value.0 == k {
      var i :| 0 <= i < |es| && es[i].value.0 == k;
      assert ParseRow(rows[i]).value.0 == k;
    }
  }

  /** A later row for the same offspring overwrites an earlier one: each key
      maps to the record of the last row naming it. */
  lemma CrossoverDictLastWins(rows: seq<CsvRow>, i: nat)
    requires CrossoverDict(rows).Ok? && i < |rows|
    requires forall j :: 0 <= j < |rows| ==> ParseRow(rows[j]).Ok?
    requires forall j :: i < j < |rows| ==> ParseRow(rows[j]).value.0 != ParseRow(rows[i]).value.0
    ensures ParseRow(rows[i]).value.0 in CrossoverDict(rows).value
    ensures CrossoverDict(rows).value[ParseRow(rows[i]).value.0] == ParseRow(rows[i]).value.1
  {
    DictOfLastWins(Entries(rows), i);
  }

  /** A failing row stops the loop: the first failing row's error is raised. */
  lemma CrossoverDictError(rows: seq<CsvRow>, i: nat)
    requires i < |rows| && ParseRow(rows[i]).Err?
    requires forall j :: 0 <= j < i ==> ParseRow(rows[j]).Ok?
    ensures CrossoverDict(rows) == Err(ParseRow(rows[i]).error)
  {
    DictOfFirstError(Entries(rows), i);
  }

  /** The generation of a row as a column conversion: ValueError when it is
      not an integer. */
  function GenerationCell(row: CsvRow): Result<int>
  {
    var g := GenerationOf(row);
    if g.None? then Err(ValueError) else Ok(g.value)
  }

  /** `astype('int64')` of the generation column. */
  function Generations(rows: seq<CsvRow>): Result<seq<int>>
  {
    AllOk(seq(|rows|, i requires 0 <= i < |rows| => GenerationCell(rows[i])))
  }

  /** The parents of one row of the table; the generation is already parsed. */
  function ParseTableRow(row: CsvRow, gen: int): Result<TableRow>
  {
    var p1 :- ParseParent(row.parent1, Parent1Label);
    var p2 :- ParseParent(row.parent2, Parent2Label);
    Ok(TableRow(gen, ReplaceAll(row.newIndividual, IndividualLabel, ""), p1.0, p1.1, p2.0, p2.1))
  }

  /** The row loop of the table construction. */
  function TableRows(rows: seq<CsvRow>, gens: seq<int>): Result<seq<TableRow>>
    requires |gens| == |rows|
  {
    AllOk(seq(|rows|, i requires 0 <= i < |rows| => ParseTableRow(rows[i], gens[i])))
  }

  lemma GenerationsSpec(rows: seq<CsvRow>)
    ensures Generations(rows).Ok? <==> forall i :: 0 <= i < |rows| ==> GenerationOf(rows[i]).Some?
    ensures Generations(rows).Ok? ==> |Generations(rows).value| == |rows|
    ensures Generations(rows).Ok? ==>
      forall i :: 0 <= i < |rows| ==> Some(Generations(rows).value[i]) == GenerationOf(rows[i])
  {
    var cells := seq(|rows|, i requires 0 <= i < |rows| => GenerationCell(rows[i]));
    AllOkSpec(cells);
    assert forall i :: 0 <= i < |rows| ==> cells[i] == GenerationCell(rows[i]);
  }

  /** The table: every generation is converted first (so a bad generation
      anywhere is a ValueError), then each row's parents are split. */
  function CrossoverTable(rows: seq<CsvRow>): Result<seq<TableRow>>
  {
    var gens :- Generations(rows);
    GenerationsSpec(rows);
    TableRows(rows, gens)
  }

  /** `_get_crossover_parents_df`: the row loop that splits the parent cells. */
  method GetCrossoverTable(rows: seq<CsvRow>) returns (r: Result<seq<TableRow>>)
    ensures r == CrossoverTable(rows)
  {
    var gens := Generations(rows);
    if gens.Err? {
      return Err(gens.error);
    }
    GenerationsSpec(rows);
    ghost var ts := seq(|rows|, i requires 0 <= i < |rows| => ParseTableRow(rows[i], gens.value[i]));
    var table: seq<TableRow> := [];
    for idx := 0 to |rows|
      invariant AllOk(ts[..idx]) == Ok(table)
    {
      assert ts[..idx + 1][..idx] == ts[..idx];
      var t := ParseTableRow(rows[idx], gens.value[idx]);
      if t.Err? {
        AllOkSpec(ts[..idx]);
        forall j | 0 <= j < idx ensures ts[j].Ok? {
          assert ts[j] == ts[..idx][j];
        }
        AllOkFirstError(ts, idx);
        return Err(t.error);
      }
      table := table + [t.value];
    }
    assert ts[..|rows|] == ts;
    return Ok(table);
  }

  /** One CSV row gives the same values whichever way it is parsed. */
  lemma ParseRowAsTableRow(row: CsvRow)
    ensures GenerationOf(row).None? ==> ParseRow(row).Err?
    ensures GenerationOf(row).Some? ==>
      (ParseRow(row).Ok? <==> ParseTableRow(row, GenerationOf(row).value).Ok?)
    ensures ParseRow(row).Ok? ==> ParseTableRow(row, GenerationOf(row).value) == Ok(AsTableRow(ParseRow(row).value))
  {
  }

  /** The table exists exactly when the dictionary does. */
  lemma CrossoverTableOk(rows: seq<CsvRow>)
    ensures CrossoverTable(rows).Ok? <==> CrossoverDict(rows).Ok?
  {
    CrossoverDictOk(rows);
    GenerationsSpec(rows);
    if Generations(rows).Ok? {
      var gens := Generations(rows).value;
      var ts := seq(|rows|, i requires 0 <= i < |rows| => ParseTableRow(rows[i], gens[i]));
      AllOkSpec(ts);
      if CrossoverTable(rows).Ok? {
        forall i | 0 <= i < |rows| ensures ParseRow(rows[i]).Ok? {
          assert ts[i].Ok?;
          ParseRowAsTableRow(rows[i]);
        }
      } else {
        var i :| 0 <= i < |rows| && ts[i].Err?;
        ParseRowAsTableRow(rows[i]);
      }
    } else {
      var i :| 0 <= i < |rows| && GenerationOf(rows[i]).None?;
      ParseRowAsTableRow(rows[i]);
    }
  }

  /** The table has one row per CSV row, carrying the values the dictionary
      stores for that row's offspring. */
  lemma CrossoverTableRows(rows: seq<CsvRow>)
    requires CrossoverTable(rows).Ok?
    ensures |CrossoverTable(rows).value| == |rows|
    ensures forall i :: 0 <= i < |rows| ==>
      ParseRow(rows[i]).Ok? && CrossoverTable(rows).value[i] == AsTableRow(ParseRow(rows[i]).value)
  {
    CrossoverTableOk(rows);
    CrossoverDictOk(rows);
    GenerationsSpec(rows);
    var gens := Generations(rows).value;
    var ts := seq(|rows|, i requires 0 <= i < |rows| => ParseTableRow(rows[i], gens[i]));
    AllOkSpec(ts);
    forall i | 0 <= i < |rows|
      ensures CrossoverTable(rows).value[i] == AsTableRow(ParseRow(rows[i]).value)
    {
      assert ts[i] == ParseTableRow(rows[i], gens[i]);
      ParseRowAsTableRow(rows[i]);
    }
  }

  /** A dictionary entry as a table row. */
  function AsTableRow(e: (string, Record)): TableRow
  {
    TableRow(e.1.generation, e.0, e.1.parent1, e.1.crossover1, e.1.parent2, e.1.crossover2)
  }
}
