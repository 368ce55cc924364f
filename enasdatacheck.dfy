/** The older copy of the hyperparameter validator: the same checks on the
    same `config.json`, with "details" where the newer copy says
    "settings". */
module EnasDataCheck {

  import opened Py
  import DataVal

  /** `validate_hyperparameters` of this copy. */
  function ValidateHyperparameters(file: DataVal.JsonFile): Result<string>
  {
    DataVal.Hyperparameters(file, "details")
  }

  method CheckHyperparameters(file: DataVal.JsonFile) returns (r: Result<string>)
    ensures r == ValidateHyperparameters(file)
  {
    r := DataVal.CheckHyperparameters(file, "details");
  }

  /** Both copies accept the same files and raise on the same files, and
      they give the same message whenever no entry is faulty. */
  lemma SameVerdict(file: DataVal.JsonFile)
    ensures ValidateHyperparameters(file) == Ok("") <==> DataVal.ValidateHyperparameters(file) == Ok("")
    ensures ValidateHyperparameters(file).Err? <==> DataVal.ValidateHyperparameters(file).Err?
    ensures !(file.Parsed? && file.data.Obj? && HasKey(file.data.fields, "hyperparameters") &&
              Lookup(file.data.fields, "hyperparameters").value.Obj?) ==>
      ValidateHyperparameters(file) == DataVal.ValidateHyperparameters(file)
  {
    DataVal.HyperparametersSpec(file, "details");
    DataVal.HyperparametersSpec(file, "settings");
    if file.Parsed? {
      DataVal.SectionSpec(file.data, "hyperparameters");
    }
  }
}
