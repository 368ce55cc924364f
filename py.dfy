/** Python values as the dashboard sees them after `json.load`: JSON documents,
    optional values, and the exceptions its helpers raise. */
module Py {

  import PyStr
  import opened Wrappers
  import opened Seqs

  /** The exception classes the modelled code can raise. */
  datatype Error =
    | KeyError(key: string)
    | TypeError
    | AttributeError
    | IndexError
    | ValueError
    | AssertionError
    | FileNotFoundError
    | JsonDecodeError

  datatype Result<+T> = Ok(value: T) | Err(error: Error) {
    predicate IsFailure() { Err? }
    function PropagateFailure<U>(): Result<U>
      requires Err?
    {
      Err(error)
    }
    function Extract(): T
      requires Ok?
    {
      value
    }
  }

  /** A parsed JSON value. An object keeps its members in document order;
      `json.load` never produces two members with the same key. */
  datatype Json =
    | Null
    | Bool(b: bool)
    | Int(i: int)
    | Float(r: real)
    | Str(s: string)
    | Arr(items: seq<Json>)
    | Obj(fields: seq<(string, Json)>)

  /** `key in d` for a dict `d` given by its members. */
  predicate HasKey<V>(fields: seq<(string, V)>, key: string)
  {
    exists i :: 0 <= i < |fields| && fields[i].0 == key
  }

  /** `d.get(key)`: the value of the first member named `key`. */
  function Lookup<V>(fields: seq<(string, V)>, key: string): (r: Option<V>)
    ensures r.Some? <==> HasKey(fields, key)
    ensures r.Some? ==> exists i :: 0 <= i < |fields| && fields[i] == (key, r.value)
  {
    if |fields| == 0 then None
    else if fields[0].0 == key then Some(fields[0].1)
    else Lookup(fields[1..], key)
  }

  /** `d.get(key, default)`. */
  function GetOr<V>(fields: seq<(string, V)>, key: string, default: V): V
  {
    match Lookup(fields, key)
    case Some(v) => v
    case None => default
  }

  /** The keys of a dict in iteration order. */
  function Keys<V>(fields: seq<(string, V)>): (ks: seq<string>)
    ensures |ks| == |fields|
    ensures forall i :: 0 <= i < |fields| ==> ks[i] == fields[i].0
  {
    if |fields| == 0 then [] else [fields[0].0] + Keys(fields[1..])
  }

  /** Python truthiness of a JSON value (`bool(x)`). */
  predicate Truthy(j: Json)
  {
    match j
    case Null => false
    case Bool(b) => b
    case Int(i) => i != 0
    case Float(r) => r != 0.0
    case Str(s) => s != ""
    case Arr(items) => items != []
    case Obj(fields) => fields != []
  }

  /** Python `x == False`: holds for `false`, `0` and `0.0`. */
  predicate EqualsFalse(j: Json)
  {
    j == Bool(false) || j == Int(0) || j == Float(0.0)
  }

  /** Python `x == True`: holds for `true`, `1` and `1.0`. */
  predicate EqualsTrue(j: Json)
  {
    j == Bool(true) || j == Int(1) || j == Float(1.0)
  }

  /** `isinstance(x, (int, float))`; a bool is an int in Python. */
  predicate IsNumber(j: Json)
  {
    j.Bool? || j.Int? || j.Float?
  }

  /** `type(x) == int or type(x) == float`: bools do not qualify. */
  predicate IsExactNumber(j: Json)
  {
    j.Int? || j.Float?
  }

  /** The numeric value of a number (a bool counts as 0 or 1). */
  function NumValue(j: Json): real
    requires IsNumber(j)
  {
    match j
    case Bool(b) => if b then 1.0 else 0.0
    case Int(i) => i as real
    case Float(r) => r
  }

  /** `key in x` for a JSON value: membership of a key, of a list element
      equal to the string, or of a substring; other types raise TypeError. */
  function PyIn(key: string, j: Json): (r: Result<bool>)
    ensures j.Obj? ==> r == Ok(HasKey(j.fields, key))
    ensures (j.Null? || j.Bool? || j.Int? || j.Float?) <==> r.Err?
  {
    match j
    case Obj(fields) => Ok(HasKey(fields, key))
    case Arr(items) => Ok(Str(key) in items)
    case Str(s) => Ok(PyStr.Contains(s, key))
    case _ => Err(TypeError)
  }

  /** `x[key]` with a string key: a dict member, KeyError when absent,
      TypeError on any other value. */
  function GetItem(j: Json, key: string): (r: Result<Json>)
    ensures r.Ok? <==> j.Obj? && HasKey(j.fields, key)
    ensures j.Obj? && !HasKey(j.fields, key) ==> r == Err(KeyError(key))
    ensures r.Ok? ==> Lookup(j.fields, key) == Some(r.value)
    ensures !j.Obj? ==> r == Err(TypeError)
  {
    match j
    case Obj(fields) =>
      (match Lookup(fields, key)
       case Some(v) => Ok(v)
       case None => Err(KeyError(key)))
    case _ => Err(TypeError)
  }

  /** A loop over results that stops at the first error and otherwise
      collects the values in order. */
  function AllOk<T>(rs: seq<Result<T>>): Result<seq<T>>
    decreases |rs|
  {
    if |rs| == 0 then Ok([])
    else
      var prev :- AllOk(rs[..|rs| - 1]);
      var x :- rs[|rs| - 1];
      Ok(prev + [x])
  }

  /** `[f(x) for x in xs]`. */
  function MapSeq<T, U>(xs: seq<T>, f: T -> U): (ys: seq<U>)
    ensures |ys| == |xs|
    ensures forall i :: 0 <= i < |xs| ==> ys[i] == f(xs[i])
  {
    seq(|xs|, i requires 0 <= i < |xs| => f(xs[i]))
  }

  /** The collection succeeds exactly when every entry does, and then holds
      every value in order. */
  lemma {:induction false} AllOkSpec<T>(rs: seq<Result<T>>)
    ensures AllOk(rs).Ok? <==> forall i :: 0 <= i < |rs| ==> rs[i].Ok?
    ensures AllOk(rs).Ok? ==> |AllOk(rs).value| == |rs|
    ensures AllOk(rs).Ok? ==> forall i :: 0 <= i < |rs| ==> AllOk(rs).value[i] == rs[i].value
    decreases |rs|
  {
    if |rs| > 0 {
      var init := rs[..|rs| - 1];
      AllOkSpec(init);
      if AllOk(rs).Ok? {
        forall i | 0 <= i < |rs| ensures rs[i].Ok? && AllOk(rs).value[i] == rs[i].value {
          if i < |init| { assert rs[i] == init[i]; }
        }
      } else if AllOk(init).Err? {
        var i :| 0 <= i < |init| && init[i].Err?;
        assert rs[i] == init[i];
      }
    }
  }

  /** Mapping then collecting succeeds exactly when `f` succeeds on every
      element, and then holds each element's value in order. */
  lemma AllOkMap<T, U>(xs: seq<T>, f: T -> Result<U>)
    ensures AllOk(MapSeq(xs, f)).Ok? <==> forall i :: 0 <= i < |xs| ==> f(xs[i]).Ok?
    ensures AllOk(MapSeq(xs, f)).Ok? ==>
      |AllOk(MapSeq(xs, f)).value| == |xs| &&
      forall i :: 0 <= i < |xs| ==> f(xs[i]) == Ok(AllOk(MapSeq(xs, f)).value[i])
  {
    AllOkSpec(MapSeq(xs, f));
  }

  /** Once a prefix fails, the whole collection fails the same way. */
  lemma {:induction false} AllOkPrefixErr<T>(rs: seq<Result<T>>, k: nat)
    requires k <= |rs| && AllOk(rs[..k]).Err?
    ensures AllOk(rs) == AllOk(rs[..k])
    decreases |rs|
  {
    if k < |rs| {
      assert rs[..|rs| - 1][..k] == rs[..k];
      AllOkPrefixErr(rs[..|rs| - 1], k);
    } else {
      assert rs[..k] == rs;
    }
  }

  /** A failing collection reports the error of one of its entries. */
  lemma {:induction false} AllOkError<T>(rs: seq<Result<T>>)
    ensures AllOk(rs).Err? ==> exists i :: 0 <= i < |rs| && rs[i] == Err(AllOk(rs).error)
    decreases |rs|
  {
    if |rs| > 0 && AllOk(rs).Err? {
      var init := rs[..|rs| - 1];
      AllOkError(init);
      if AllOk(init).Err? {
        var i :| 0 <= i < |init| && init[i] == Err(AllOk(init).error);
        assert rs[i] == init[i];
      }
    }
  }

  /** The error reported is the one of the first failing entry. */
  lemma {:induction false} AllOkFirstError<T>(rs: seq<Result<T>>, i: nat)
    requires i < |rs| && rs[i].Err?
    requires forall j :: 0 <= j < i ==> rs[j].Ok?
    ensures AllOk(rs) == Err(rs[i].error)
    decreases |rs|
  {
    var init := rs[..|rs| - 1];
    if i < |init| {
      assert init[i] == rs[i];
      forall j | 0 <= j < i ensures init[j].Ok? {
        assert init[j] == rs[j];
      }
      AllOkFirstError(init, i);
    } else {
      forall j | 0 <= j < |init| ensures init[j].Ok? {
        assert init[j] == rs[j];
      }
      AllOkSpec(init);
    }
  }

  /** A loop `d[k] = v` over `(k, v)` results that stops at the first error. */
  function DictOf<V>(rs: seq<Result<(string, V)>>): Result<map<string, V>>
    decreases |rs|
  {
    if |rs| == 0 then Ok(map[])
    else
      var prev :- DictOf(rs[..|rs| - 1]);
      var e :- rs[|rs| - 1];
      Ok(prev[e.0 := e.1])
  }

  /** The dictionary exists exactly when every entry does. */
  lemma {:induction false} DictOfOk<V>(rs: seq<Result<(string, V)>>)
    ensures DictOf(rs).Ok? <==> forall i :: 0 <= i < |rs| ==> rs[i].Ok?
    decreases |rs|
  {
    if |rs| > 0 {
      var init := rs[..|rs| - 1];
      DictOfOk(init);
      if DictOf(rs).Ok? {
        forall i | 0 <= i < |rs| ensures rs[i].Ok? {
          if i < |init| { assert rs[i] == init[i]; }
        }
      } else if DictOf(init).Err? {
        var i :| 0 <= i < |init| && init[i].Err?;
        assert rs[i] == init[i];
      }
    }
  }

  /** Its keys are exactly the keys of the entries. */
  lemma {:induction false} DictOfKeys<V>(rs: seq<Result<(string, V)>>, k: string)
    requires DictOf(rs).Ok?
    ensures forall i :: 0 <= i < |rs| ==> rs[i].Ok?
    ensures k in DictOf(rs).value <==> exists i :: 0 <= i < |rs| && rs[i].value.0 == k
    decreases |rs|
  {
    DictOfOk(rs);
    if |rs| > 0 {
      var init := rs[..|rs| - 1];
      DictOfOk(init);
      DictOfKeys(init, k);
      var e := rs[|rs| - 1].value;
      if k in DictOf(rs).value && k != e.0 {
        var i :| 0 <= i < |init| && init[i].value.0 == k;
        assert rs[i] == init[i];
      }
      if exists i :: 0 <= i < |rs| && rs[i].value.0 == k {
        var i :| 0 <= i < |rs| && rs[i].value.0 == k;
        if i < |init| { assert rs[i] == init[i]; }
      }
    }
  }

  /** A later entry for a key overwrites an earlier one: each key holds the
      value of the last entry naming it. */
  lemma {:induction false} DictOfLastWins<V>(rs: seq<Result<(string, V)>>, i: nat)
    requires DictOf(rs).Ok? && i < |rs|
    requires forall j :: 0 <= j < |rs| ==> rs[j].Ok?
    requires forall j :: i < j < |rs| ==> rs[j].value.0 != rs[i].value.0
    ensures rs[i].value.0 in DictOf(rs).value && DictOf(rs).value[rs[i].value.0] == rs[i].value.1
    decreases |rs|
  {
    var init := rs[..|rs| - 1];
    if i < |init| {
      assert rs[|rs| - 1].value.0 != rs[i].value.0;
      assert rs[i] == init[i];
      forall j | 0 <= j < |init| ensures init[j].Ok? {
        assert init[j] == rs[j];
      }
      forall j | i < j < |init| ensures init[j].value.0 != init[i].value.0 {
        assert init[j] == rs[j];
      }
      DictOfLastWins(init, i);
    }
  }

  /** The error reported is the one of the first failing entry. */
  lemma {:induction false} DictOfFirstError<V>(rs: seq<Result<(string, V)>>, i: nat)
    requires i < |rs| && rs[i].Err?
    requires forall j :: 0 <= j < i ==> rs[j].Ok?
    ensures DictOf(rs) == Err(rs[i].error)
    decreases |rs|
  {
    var init := rs[..|rs| - 1];
    if i < |init| {
      assert init[i] == rs[i];
      forall j | 0 <= j < i ensures init[j].Ok? {
        assert init[j] == rs[j];
      }
      DictOfFirstError(init, i);
    } else {
      forall j | 0 <= j < |init| ensures init[j].Ok? {
        assert init[j] == rs[j];
      }
      DictOfOk(init);
    }
  }

  /** The concatenation of a sequence of strings. */
  function Concat(parts: seq<string>): string
  {
    if |parts| == 0 then "" else parts[0] + Concat(parts[1..])
  }

  lemma {:induction false} ConcatAppend(parts: seq<string>, s: string)
    ensures Concat(parts + [s]) == Concat(parts) + s
  {
    if |parts| == 0 {
      assert parts + [s] == [s];
    } else {
      assert (parts + [s])[1..] == parts[1..] + [s];
      ConcatAppend(parts[1..], s);
    }
  }

  /** A concatenation is empty exactly when every part is. */
  lemma {:induction false} ConcatEmpty(parts: seq<string>)
    ensures Concat(parts) == "" <==> forall i :: 0 <= i < |parts| ==> parts[i] == ""
  {
    if |parts| > 0 {
      ConcatEmpty(parts[1..]);
      assert forall i :: 1 <= i < |parts| ==> parts[i] == parts[1..][i - 1];
    }
  }

  /** Concatenation splits at any index. */
  lemma {:induction false} ConcatSplit(parts: seq<string>, i: nat)
    requires i <= |parts|
    ensures Concat(parts) == Concat(parts[..i]) + Concat(parts[i..])
    decreases i
  {
    if i > 0 {
      ConcatSplit(parts[1..], i - 1);
      assert parts[1..][..i - 1] == parts[..i][1..];
      assert parts[1..][i - 1..] == parts[i..];
    } else {
      assert parts[..0] == [];
      assert parts[0..] == parts;
    }
  }

  /** Every part occurs in the concatenation. */
  lemma ConcatContains(parts: seq<string>, i: nat)
    requires i < |parts|
    ensures PyStr.Contains(Concat(parts), parts[i])
  {
    var pre := Concat(parts[..i]);
    var post := Concat(parts[i + 1..]);
    ConcatSplit(parts, i);
    assert Concat(parts[i..]) == parts[i] + post by {
      assert parts[i..][0] == parts[i];
      assert parts[i..][1..] == parts[i + 1..];
    }
    assert Concat(parts) == pre + parts[i] + post;
    PyStr.ContainsMiddle(pre, parts[i], post);
  }

  /** `d[key] = value` on an insertion-ordered dict: an existing key keeps
      its position and takes the new value; a new key goes last. */
  function Assign<V>(fields: seq<(string, V)>, key: string, value: V): seq<(string, V)>
  {
    if |fields| == 0 then [(key, value)]
    else if fields[0].0 == key then [(key, value)] + fields[1..]
    else [fields[0]] + Assign(fields[1..], key, value)
  }

  /** After the assignment the key holds the new value and every other key
      its old one. */
  lemma {:induction false} AssignLookup<V>(fields: seq<(string, V)>, key: string, value: V)
    ensures Lookup(Assign(fields, key, value), key) == Some(value)
    ensures forall k :: k != key ==> Lookup(Assign(fields, key, value), k) == Lookup(fields, k)
  {
    if |fields| > 0 && fields[0].0 != key {
      AssignLookup(fields[1..], key, value);
      assert Assign(fields, key, value)[1..] == Assign(fields[1..], key, value);
    }
  }

  /** The assignment adds exactly its key. */
  lemma AssignHasKey<V>(fields: seq<(string, V)>, key: string, value: V, k: string)
    ensures HasKey(Assign(fields, key, value), k) <==> HasKey(fields, k) || k == key
  {
    AssignLookup(fields, key, value);
    if k != key {
      assert Lookup(Assign(fields, key, value), k) == Lookup(fields, k);
    }
  }

  lemma HasKeyTail<V>(fields: seq<(string, V)>, key: string)
    requires |fields| > 0 && fields[0].0 != key
    ensures HasKey(fields, key) <==> HasKey(fields[1..], key)
  {
    if HasKey(fields, key) {
      var i :| 0 <= i < |fields| && fields[i].0 == key;
      assert fields[1..][i - 1].0 == key;
    }
    if HasKey(fields[1..], key) {
      var i :| 0 <= i < |fields[1..]| && fields[1..][i].0 == key;
      assert fields[i + 1].0 == key;
    }
  }

  /** The keys keep their order; a new key is appended. */
  lemma {:induction false} AssignKeys<V>(fields: seq<(string, V)>, key: string, value: V)
    ensures Keys(Assign(fields, key, value)) == if HasKey(fields, key) then Keys(fields) else Keys(fields) + [key]
  {
    var r := Assign(fields, key, value);
    if |fields| > 0 && fields[0].0 != key {
      AssignKeys(fields[1..], key, value);
      HasKeyTail(fields, key);
      assert Keys(r) == [fields[0].0] + Keys(Assign(fields[1..], key, value));
      assert Keys(fields) == [fields[0].0] + Keys(fields[1..]);
    } else if |fields| > 0 {
      assert HasKey(fields, key);
      assert Keys(r) == [key] + Keys(fields[1..]);
      assert Keys(fields) == [key] + Keys(fields[1..]);
    }
  }

  /** A dict built by assignments has each key once. */
  lemma AssignUnique<V>(fields: seq<(string, V)>, key: string, value: V)
    requires NoDuplicates(Keys(fields))
    ensures NoDuplicates(Keys(Assign(fields, key, value)))
  {
    AssignKeys(fields, key, value);
    var ks := Keys(fields);
    if !HasKey(fields, key) {
      assert key !in ks;
      var rk := ks + [key];
      forall i, j | 0 <= i < j < |rk| ensures rk[i] != rk[j] {
        if j < |ks| {
          assert rk[i] == ks[i] && rk[j] == ks[j];
        } else {
          assert rk[i] == ks[i] && ks[i] in ks;
        }
      }
    }
  }

  /** `for k, v in pairs: d[k] = v` into a fresh dict. */
  function MapOf<V>(pairs: seq<(string, V)>): map<string, V>
    decreases |pairs|
  {
    if |pairs| == 0 then map[]
    else MapOf(pairs[..|pairs| - 1])[pairs[|pairs| - 1].0 := pairs[|pairs| - 1].1]
  }

  /** The keys of the dict are the keys of the pairs. */
  lemma {:induction false} MapOfKeys<V>(pairs: seq<(string, V)>, k: string)
    ensures k in MapOf(pairs) <==> HasKey(pairs, k)
    decreases |pairs|
  {
    if |pairs| > 0 {
      var init := pairs[..|pairs| - 1];
      MapOfKeys(init, k);
      if HasKey(pairs, k) && pairs[|pairs| - 1].0 != k {
        var i :| 0 <= i < |pairs| && pairs[i].0 == k;
        assert init[i] == pairs[i];
      }
      if HasKey(init, k) {
        var i :| 0 <= i < |init| && init[i].0 == k;
        assert pairs[i] == init[i];
      }
    }
  }

  /** With distinct keys, every pair is an entry of the dict. */
  lemma {:induction false} MapOfEntry<V>(pairs: seq<(string, V)>, i: nat)
    requires NoDuplicates(Keys(pairs)) && i < |pairs|
    ensures pairs[i].0 in MapOf(pairs) && MapOf(pairs)[pairs[i].0] == pairs[i].1
    decreases |pairs|
  {
    var init := pairs[..|pairs| - 1];
    if i < |init| {
      var ks := Keys(pairs);
      assert ks[i] != ks[|pairs| - 1];
      assert NoDuplicates(Keys(init)) by {
        forall a, b | 0 <= a < b < |init| ensures Keys(init)[a] != Keys(init)[b] {
          assert Keys(init)[a] == ks[a] && Keys(init)[b] == ks[b];
        }
      }
      assert init[i] == pairs[i];
      MapOfEntry(init, i);
    }
  }
}
