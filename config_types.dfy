/**
 * The recursive value conversion of the typed configuration parsers: a type
 * specification (bool, int, str, a tuple with arity and separator, a dict of
 * pairs) turns a raw string into a value, or fails with the error the
 * parser raises.
 */
module ConfigTypes {
  import opened Wrappers
  import opened PyText

  /**
   * A type specification: [bool], [int], [str], [tuple, n, nested, sep] and
   * [dict, nested, sep]. Scalars other than int and str are not modelled.
   */
  datatype TypeSpec =
    | BoolSpec
    | IntSpec
    | StrSpec
    | TupleSpec(n: int, nested: seq<TypeSpec>, sep: string)
    | DictSpec(nested: seq<TypeSpec>, sep: string)

  /** A converted value; a dict keeps its entries in insertion order. */
  datatype Value =
    | BoolV(b: bool)
    | IntV(i: int)
    | StrV(s: string)
    | TupleV(items: seq<Value>)
    | DictV(entries: seq<(Value, Value)>)

  /** The exceptions the parsers raise: ConfigError messages, and Python's own ValueError / TypeError. */
  datatype Failure =
    | DoubleDeclaration(name: string)
    | InvalidArgument(value: string, name: string)
    | UnknownParameter(name: string)
    | UndefinedLine(line: string)
    | MissingValues(keys: seq<string>)
    | ValueError
    | TypeError

  /**
   * The two typed parsers: the current one converts dict specs; the legacy
   * one has no dict branch, so a dict spec reaches the scalar branch and
   * dict(value) is {} for "" and a ValueError for any other string.
   */
  datatype Dialect = Mazegen | Legacy

  /** A registered parameter: [value, spec, already-set flag]. */
  datatype Param = Param(value: Option<Value>, spec: TypeSpec, isSet: bool)

  // ---------------------------------------------------------------------
  // Python semantics used by the dict branch.

  /** len(): defined for str, tuple and dict; a TypeError for bool and int. */
  function PyLen(v: Value): Option<nat>
  {
    match v
    case BoolV(_) => None
    case IntV(_) => None
    case StrV(s) => Some(|s|)
    case TupleV(items) => Some(|items|)
    case DictV(entries) => Some(|entries|)
  }

  /** Usable as a dict key: dicts, and tuples holding one, are not. */
  predicate Hashable(v: Value)
  {
    match v
    case DictV(_) => false
    case TupleV(items) => forall i :: 0 <= i < |items| ==> Hashable(items[i])
    case _ => true
  }

  /** The number a bool or int stands for (True == 1, False == 0). */
  function Num(v: Value): int
    requires v.BoolV? || v.IntV?
  {
    if v.BoolV? then (if v.b then 1 else 0) else v.i
  }

  /** Python == on dict keys: bools and ints compare as numbers, tuples item by item. */
  predicate KeyEq(a: Value, b: Value)
  {
    if (a.BoolV? || a.IntV?) && (b.BoolV? || b.IntV?) then Num(a) == Num(b)
    else if a.StrV? && b.StrV? then a.s == b.s
    else if a.TupleV? && b.TupleV? then
      |a.items| == |b.items| && forall i :: 0 <= i < |a.items| ==> KeyEq(a.items[i], b.items[i])
    else false
  }

  lemma {:induction false} KeyEqRefl(a: Value)
    requires Hashable(a)
    ensures KeyEq(a, a)
  {
    if a.TupleV? {
      forall i | 0 <= i < |a.items|
        ensures KeyEq(a.items[i], a.items[i])
      {
        KeyEqRefl(a.items[i]);
      }
    }
  }

  lemma {:induction false} KeyEqSym(a: Value, b: Value)
    requires KeyEq(a, b)
    ensures KeyEq(b, a)
  {
    if a.TupleV? && b.TupleV? {
      forall i | 0 <= i < |b.items|
        ensures KeyEq(b.items[i], a.items[i])
      {
        KeyEqSym(a.items[i], b.items[i]);
      }
    }
  }

  lemma {:induction false} KeyEqTrans(a: Value, b: Value, c: Value)
    requires KeyEq(a, b) && KeyEq(b, c)
    ensures KeyEq(a, c)
  {
    if a.TupleV? && b.TupleV? && c.TupleV? {
      forall i | 0 <= i < |a.items|
        ensures KeyEq(a.items[i], c.items[i])
      {
        KeyEqTrans(a.items[i], b.items[i], c.items[i]);
      }
    }
  }

  /** The first entry at or after from whose key equals k. */
  function FindKey(es: seq<(Value, Value)>, k: Value, from: nat): (r: Option<nat>)
    ensures r.Some? ==> from <= r.value < |es| && KeyEq(es[r.value].0, k)
    ensures r.Some? ==> forall j :: from <= j < r.value ==> !KeyEq(es[j].0, k)
    ensures r.None? ==> forall j :: from <= j < |es| ==> !KeyEq(es[j].0, k)
    decreases |es| - from
  {
    if from >= |es| then None
    else if KeyEq(es[from].0, k) then Some(from)
    else FindKey(es, k, from + 1)
  }

  /** FindKey returns the first matching index. */
  lemma {:induction false} FindKeyFirst(es: seq<(Value, Value)>, k: Value, from: nat, i: nat)
    requires from <= i < |es| && KeyEq(es[i].0, k)
    requires forall j :: from <= j < i ==> !KeyEq(es[j].0, k)
    ensures FindKey(es, k, from) == Some(i)
    decreases i - from
  {
    if from < i {
      FindKeyFirst(es, k, from + 1, i);
    }
  }

  /** d[k], or None when k is not a key of d. */
  function Lookup(es: seq<(Value, Value)>, k: Value): Option<Value>
  {
    match FindKey(es, k, 0)
    case None => None
    case Some(i) => Some(es[i].1)
  }

  /** d[k] = v: an equal key keeps its place (and its original key object) and takes the new value; otherwise (k, v) is appended. */
  function DictInsert(es: seq<(Value, Value)>, k: Value, v: Value): seq<(Value, Value)>
  {
    match FindKey(es, k, 0)
    case None => es + [(k, v)]
    case Some(i) => es[i := (es[i].0, v)]
  }

  /** After d[k0] = v0, d[k] is v0 for every k equal to k0 and unchanged for every other k. */
  lemma LookupInsert(es: seq<(Value, Value)>, k0: Value, v0: Value, k: Value)
    ensures Lookup(DictInsert(es, k0, v0), k) == if KeyEq(k0, k) then Some(v0) else Lookup(es, k)
  {
    match FindKey(es, k0, 0)
    case Some(i) => LookupReplaced(es, k0, v0, k, i);
    case None => LookupAppended(es, k0, v0, k);
  }

  /** LookupInsert when k0 is already a key, at index i. */
  lemma LookupReplaced(es: seq<(Value, Value)>, k0: Value, v0: Value, k: Value, i: nat)
    requires FindKey(es, k0, 0) == Some(i)
    ensures Lookup(es[i := (es[i].0, v0)], k) == if KeyEq(k0, k) then Some(v0) else Lookup(es, k)
  {
    var es' := es[i := (es[i].0, v0)];
    assert forall j :: 0 <= j < |es| ==> es'[j].0 == es[j].0;
    if KeyEq(k0, k) {
      KeyEqTrans(es[i].0, k0, k);
      forall j | 0 <= j < i
        ensures !KeyEq(es'[j].0, k)
      {
        if KeyEq(es[j].0, k) {
          KeyEqSym(k0, k);
          KeyEqTrans(es[j].0, k, k0);
        }
      }
      FindKeyFirst(es', k, 0, i);
    } else {
      if KeyEq(es[i].0, k) {
        KeyEqSym(es[i].0, k0);
        KeyEqTrans(k0, es[i].0, k);
      }
      match FindKey(es, k, 0)
      case None =>
        assert FindKey(es', k, 0) == None;
      case Some(j) =>
        FindKeyFirst(es', k, 0, j);
    }
  }

  /** LookupInsert when k0 is a new key. */
  lemma LookupAppended(es: seq<(Value, Value)>, k0: Value, v0: Value, k: Value)
    requires FindKey(es, k0, 0) == None
    ensures Lookup(es + [(k0, v0)], k) == if KeyEq(k0, k) then Some(v0) else Lookup(es, k)
  {
    var es' := es + [(k0, v0)];
    match FindKey(es, k, 0)
    case Some(j) =>
      if KeyEq(k0, k) {
        KeyEqSym(k0, k);
        KeyEqTrans(es[j].0, k, k0);
      }
      FindKeyFirst(es', k, 0, j);
    case None =>
      if KeyEq(k0, k) {
        FindKeyFirst(es', k, 0, |es|);
      } else {
        assert FindKey(es', k, 0) == None;
      }
  }

  /** No two entries have equal keys. */
  predicate DistinctKeys(es: seq<(Value, Value)>)
  {
    forall i, j :: 0 <= i < j < |es| ==> !KeyEq(es[i].0, es[j].0)
  }

  lemma InsertDistinct(es: seq<(Value, Value)>, k: Value, v: Value)
    requires DistinctKeys(es)
    ensures DistinctKeys(DictInsert(es, k, v))
  {
    match FindKey(es, k, 0)
    case None =>
      forall i | 0 <= i < |es|
        ensures !KeyEq(es[i].0, k)
      {
      }
    case Some(_) =>
  }

  // ---------------------------------------------------------------------
  // Conversion.

  function Size(t: TypeSpec): (r: nat)
    ensures r >= 1
  {
    match t
    case TupleSpec(_, nested, _) => 1 + SizeAll(nested)
    case DictSpec(nested, _) => 1 + SizeAll(nested)
    case _ => 1
  }

  function SizeAll(ts: seq<TypeSpec>): nat
  {
    if ts == [] then 0 else SizeAll(ts[..|ts| - 1]) + Size(ts[|ts| - 1])
  }

  /** apply_types below the double-declaration check: the conversion a spec prescribes. */
  function Convert(d: Dialect, name: string, spec: TypeSpec, value: string): Result<Value, Failure>
    decreases Size(spec), 0
  {
    match spec
    case BoolSpec => ConvertBool(name, value)
    case IntSpec => ConvertInt(value)
    case StrSpec => Ok(StrV(value))
    case TupleSpec(n, nested, sep) => ConvertTuple(d, name, n, nested, sep, value)
    case DictSpec(nested, sep) => ConvertDict(d, name, nested, sep, value)
  }

  /** The bool branch: capitalize() must give "True" or "False". */
  function ConvertBool(name: string, value: string): (r: Result<Value, Failure>)
    ensures r.Ok? ==> r.value.BoolV?
    ensures r.Err? ==> r == Err(InvalidArgument(value, name))
  {
    if Capitalize(value) == "True" then Ok(BoolV(true))
    else if Capitalize(value) == "False" then Ok(BoolV(false))
    else Err(InvalidArgument(value, name))
  }

  /** The scalar branch for int: int(value), a ValueError when it does not parse. */
  function ConvertInt(value: string): (r: Result<Value, Failure>)
    ensures r.Ok? ==> r.value.IntV?
    ensures r.Err? ==> r == Err(ValueError)
  {
    match ParseInt(value)
    case Some(i) => Ok(IntV(i))
    case None => Err(ValueError)
  }

  /** The dict branch: the value is split into as many parts as it has, converted as a tuple, then paired. */
  function ConvertDict(d: Dialect, name: string, nested: seq<TypeSpec>, sep: string, value: string): Result<Value, Failure>
    decreases SizeAll(nested), 4
  {
    if d == Legacy then (if value == [] then Ok(DictV([])) else Err(ValueError))
    else if sep == [] then Err(ValueError)
    else
      match ConvertTuple(d, name, |Split(value, sep)|, nested, sep, value)
      case Err(e) => Err(e)
      case Ok(t) => ToDict(name, value, t.items)
  }

  /** The tuple branch: split, check the part count and the spec count, convert each part in order. */
  function ConvertTuple(d: Dialect, name: string, n: int, nested: seq<TypeSpec>, sep: string, value: string): (r: Result<Value, Failure>)
    ensures r.Ok? ==> r.value.TupleV?
    decreases SizeAll(nested), 3
  {
    if sep == [] then Err(ValueError)
    else if n != |Split(value, sep)| then Err(InvalidArgument(value, name))
    else if n != |nested| then Err(InvalidArgument(value, name))
    else
      match ConvertAll(d, name, nested, Split(value, sep))
      case Err(e) => Err(e)
      case Ok(vs) => Ok(TupleV(vs))
  }

  /** Parts converted by their specs left to right; the first failure wins. */
  function ConvertAll(d: Dialect, name: string, specs: seq<TypeSpec>, parts: seq<string>): Result<seq<Value>, Failure>
    requires |specs| == |parts|
    decreases SizeAll(specs), 2
  {
    Collect(Conversions(d, name, specs, parts))
  }

  /** The conversion of each part by its own spec. */
  function Conversions(d: Dialect, name: string, specs: seq<TypeSpec>, parts: seq<string>): (cs: seq<Result<Value, Failure>>)
    requires |specs| == |parts|
    ensures |cs| == |specs|
    decreases SizeAll(specs), 1
  {
    seq(|specs|, i requires 0 <= i < |specs| => SizeIn(specs, i); Convert(d, name, specs[i], parts[i]))
  }

  /** A nested spec is no larger than the list holding it. */
  lemma {:induction false} SizeIn(specs: seq<TypeSpec>, i: nat)
    requires i < |specs|
    ensures Size(specs[i]) <= SizeAll(specs)
  {
    var n := |specs| - 1;
    if i < n {
      SizeIn(specs[..n], i);
    }
  }

  /** The values of the results in order, or the first failure. */
  function Collect(cs: seq<Result<Value, Failure>>): Result<seq<Value>, Failure>
  {
    if cs == [] then Ok([])
    else Snoc(Collect(cs[..|cs| - 1]), cs[|cs| - 1])
  }

  /** The values so far extended by one more; the earlier failure wins. */
  function Snoc(r: Result<seq<Value>, Failure>, c: Result<Value, Failure>): Result<seq<Value>, Failure>
  {
    match r
    case Err(e) => Err(e)
    case Ok(vs) =>
      (match c
       case Err(e) => Err(e)
       case Ok(v) => Ok(vs + [v]))
  }

  /** The dict branch after the tuple conversion: the len check over all elements, then the pair loop. */
  function ToDict(name: string, value: string, items: seq<Value>): (r: Result<Value, Failure>)
    ensures r.Ok? ==> r.value.DictV?
  {
    match LenCheck(name, value, items)
    case Some(e) => Err(e)
    case None =>
      (match DictEntries(name, value, items)
       case Err(e) => Err(e)
       case Ok(es) => Ok(DictV(es)))
  }

  /** The first loop: len(element) != 2 is a ConfigError; len() of a bool or int a TypeError. */
  function LenCheck(name: string, value: string, items: seq<Value>): Option<Failure>
  {
    if items == [] then None
    else
      match LenCheck(name, value, items[..|items| - 1])
      case Some(e) => Some(e)
      case None =>
        (match PyLen(items[|items| - 1])
         case None => Some(TypeError)
         case Some(l) => if l != 2 then Some(InvalidArgument(value, name)) else None)
  }

  /** A two-part tuple with a hashable first part. */
  predicate KeyValuePair(v: Value)
  {
    v.TupleV? && |v.items| == 2 && Hashable(v.items[0])
  }

  /** The second loop: each element must be a 2-tuple; result[k] = v in order. */
  function DictEntries(name: string, value: string, items: seq<Value>): Result<seq<(Value, Value)>, Failure>
  {
    if items == [] then Ok([])
    else
      match DictEntries(name, value, items[..|items| - 1])
      case Err(e) => Err(e)
      case Ok(es) =>
        var last := items[|items| - 1];
        if !last.TupleV? || |last.items| != 2 then Err(InvalidArgument(value, name))
        else if !Hashable(last.items[0]) then Err(TypeError)
        else Ok(DictInsert(es, last.items[0], last.items[1]))
  }

  /** apply_types: a parameter already set is a double declaration; otherwise the spec's conversion. */
  function ApplyTypes(d: Dialect, name: string, param: Param, value: string): (r: Result<Value, Failure>)
    ensures param.isSet ==> r == Err(DoubleDeclaration(name))
    ensures !param.isSet ==> r == Convert(d, name, param.spec, value)
  {
    if param.isSet then Err(DoubleDeclaration(name))
    else Convert(d, name, param.spec, value)
  }

  // ---------------------------------------------------------------------
  // What each spec accepts.

  /** A bool spec accepts exactly "true" and "false" in any letter case. */
  lemma BoolSpecAccepts(d: Dialect, name: string, value: string)
    ensures Convert(d, name, BoolSpec, value) == Ok(BoolV(true)) <==> LowerAll(value) == "true"
    ensures Convert(d, name, BoolSpec, value) == Ok(BoolV(false)) <==> LowerAll(value) == "false"
    ensures Convert(d, name, BoolSpec, value).Err? <==> LowerAll(value) != "true" && LowerAll(value) != "false"
    ensures Convert(d, name, BoolSpec, value).Err? ==> Convert(d, name, BoolSpec, value) == Err(InvalidArgument(value, name))
  {
    CapitalizeMatches(value, "True");
    CapitalizeMatches(value, "False");
    assert LowerAll("True") == "true";
    assert LowerAll("False") == "false";
  }

  /** An int spec reads back what str() writes. */
  lemma IntSpecRoundTrip(d: Dialect, name: string, i: int)
    ensures Convert(d, name, IntSpec, IntToString(i)) == Ok(IntV(i))
  {
    ParseIntRoundTrip(i);
  }

  /** The results collect into vs exactly when each result is the matching value of vs. */
  lemma {:induction false} CollectOk(cs: seq<Result<Value, Failure>>, vs: seq<Value>)
    ensures Collect(cs) == Ok(vs) <==> |vs| == |cs| && forall i :: 0 <= i < |cs| ==> cs[i] == Ok(vs[i])
  {
    if cs != [] {
      var n := |cs| - 1;
      var pre := cs[..n];
      assert forall i :: 0 <= i < n ==> pre[i] == cs[i];
      if Collect(cs) == Ok(vs) {
        var r := Collect(pre);
        assert r.Ok? && cs[n].Ok? && vs == r.value + [cs[n].value];
        CollectOk(pre, r.value);
      }
      if |vs| == |cs| && forall i :: 0 <= i < |cs| ==> cs[i] == Ok(vs[i]) {
        CollectOk(pre, vs[..n]);
        assert vs == vs[..n] + [vs[n]];
      }
    }
  }

  /** The first failing result, if any, is the failure of the whole collection. */
  lemma {:induction false} CollectFirstFailure(cs: seq<Result<Value, Failure>>, i: nat)
    requires i < |cs| && cs[i].Err?
    requires forall j :: 0 <= j < i ==> cs[j].Ok?
    ensures Collect(cs) == Err(cs[i].error)
  {
    var n := |cs| - 1;
    var pre := cs[..n];
    if i < n {
      assert forall j :: 0 <= j < i ==> pre[j] == cs[j];
      CollectFirstFailure(pre, i);
    } else {
      var vs := seq(i, j requires 0 <= j < i => cs[j].value);
      assert forall j :: 0 <= j < i ==> pre[j] == Ok(vs[j]);
      CollectOk(pre, vs);
    }
  }

  /** The parts convert, in order, exactly when every part converts by its own spec. */
  lemma ConvertAllSpec(d: Dialect, name: string, specs: seq<TypeSpec>, parts: seq<string>, vs: seq<Value>)
    requires |specs| == |parts|
    ensures ConvertAll(d, name, specs, parts) == Ok(vs) <==>
      |vs| == |specs| && forall i :: 0 <= i < |specs| ==> Convert(d, name, specs[i], parts[i]) == Ok(vs[i])
  {
    var cs := Conversions(d, name, specs, parts);
    CollectOk(cs, vs);
    assert forall i :: 0 <= i < |specs| ==> cs[i] == Convert(d, name, specs[i], parts[i]);
  }

  /** The first part that fails to convert decides the error of the whole conversion. */
  lemma ConvertAllFirstFailure(d: Dialect, name: string, specs: seq<TypeSpec>, parts: seq<string>, i: nat)
    requires |specs| == |parts| && i < |specs|
    requires Convert(d, name, specs[i], parts[i]).Err?
    requires forall j :: 0 <= j < i ==> Convert(d, name, specs[j], parts[j]).Ok?
    ensures ConvertAll(d, name, specs, parts) == Err(Convert(d, name, specs[i], parts[i]).error)
  {
    var cs := Conversions(d, name, specs, parts);
    assert forall j :: 0 <= j < |specs| ==> cs[j] == Convert(d, name, specs[j], parts[j]);
    CollectFirstFailure(cs, i);
  }

  /**
   * A tuple spec succeeds exactly when the separator is non-empty, the value
   * splits into n parts, there are n nested specs, and part i converts by spec
   * i; the tuple holds those n values.
   */
  lemma TupleSpecShape(d: Dialect, name: string, n: int, nested: seq<TypeSpec>, sep: string, value: string, vs: seq<Value>)
    ensures Convert(d, name, TupleSpec(n, nested, sep), value) == Ok(TupleV(vs)) <==>
      sep != [] && n == |Split(value, sep)| && n == |nested| && |vs| == n
      && forall i :: 0 <= i < n ==> Convert(d, name, nested[i], Split(value, sep)[i]) == Ok(vs[i])
  {
    if sep != [] && n == |Split(value, sep)| && n == |nested| {
      ConvertAllSpec(d, name, nested, Split(value, sep), vs);
    }
  }

  /** A wrong part count is an invalid argument. */
  lemma TupleSpecArity(d: Dialect, name: string, n: int, nested: seq<TypeSpec>, sep: string, value: string)
    requires sep != [] && n != |Split(value, sep)|
    ensures Convert(d, name, TupleSpec(n, nested, sep), value) == Err(InvalidArgument(value, name))
  {
  }

  /** Every key of the dict built from the pairs maps to the value of the last pair with an equal key. */
  function LastValue(items: seq<Value>, k: Value): Option<Value>
    requires forall i :: 0 <= i < |items| ==> KeyValuePair(items[i])
  {
    if items == [] then None
    else
      var last := items[|items| - 1];
      assert KeyValuePair(last);
      if KeyEq(last.items[0], k) then Some(last.items[1])
      else LastValue(items[..|items| - 1], k)
  }

  /**
   * The pair loop succeeds exactly when every element is a 2-tuple with a
   * hashable key; the dict then has pairwise distinct keys and a later pair
   * overwrites the value of an earlier equal key.
   */
  lemma {:induction false} DictEntriesSpec(name: string, value: string, items: seq<Value>)
    ensures DictEntries(name, value, items).Ok? <==> forall i :: 0 <= i < |items| ==> KeyValuePair(items[i])
    ensures DictEntries(name, value, items).Ok? ==>
      DistinctKeys(DictEntries(name, value, items).value)
      && forall k :: Lookup(DictEntries(name, value, items).value, k) == LastValue(items, k)
  {
    if items != [] {
      var n := |items| - 1;
      var p := items[..n];
      DictEntriesSpec(name, value, p);
      assert forall i :: 0 <= i < n ==> p[i] == items[i];
      if DictEntries(name, value, items).Ok? {
        var es := DictEntries(name, value, p).value;
        var last := items[n];
        InsertDistinct(es, last.items[0], last.items[1]);
        forall k
          ensures Lookup(DictEntries(name, value, items).value, k) == LastValue(items, k)
        {
          LookupInsert(es, last.items[0], last.items[1], k);
        }
      }
    }
  }

  /** The len loop passes exactly when every element has length 2. */
  lemma {:induction false} LenCheckSpec(name: string, value: string, items: seq<Value>)
    ensures LenCheck(name, value, items).None? <==> forall i :: 0 <= i < |items| ==> PyLen(items[i]) == Some(2)
  {
    if items != [] {
      var n := |items| - 1;
      LenCheckSpec(name, value, items[..n]);
      assert forall i :: 0 <= i < n ==> items[..n][i] == items[i];
    }
  }

  /**
   * A dict spec with a non-empty separator splits the value, converts part i
   * by nested spec i (there must be exactly as many nested specs as parts), and
   * succeeds exactly when every converted part is a 2-tuple with a hashable
   * key; the entries are then those of the pairs, a later key overwriting an
   * earlier one.
   */
  lemma DictSpecShape(name: string, nested: seq<TypeSpec>, sep: string, value: string) returns (items: seq<Value>)
    requires Convert(Mazegen, name, DictSpec(nested, sep), value).Ok?
    ensures sep != [] && |nested| == |Split(value, sep)| && |items| == |nested|
    ensures forall i :: 0 <= i < |items| ==> Convert(Mazegen, name, nested[i], Split(value, sep)[i]) == Ok(items[i])
    ensures forall i :: 0 <= i < |items| ==> KeyValuePair(items[i])
    ensures Convert(Mazegen, name, DictSpec(nested, sep), value).value.DictV?
    ensures DistinctKeys(Convert(Mazegen, name, DictSpec(nested, sep), value).value.entries)
    ensures forall k :: Lookup(Convert(Mazegen, name, DictSpec(nested, sep), value).value.entries, k) == LastValue(items, k)
  {
    var r := Convert(Mazegen, name, DictSpec(nested, sep), value);
    assert r == ConvertDict(Mazegen, name, nested, sep, value);
    var parts := Split(value, sep);
    var t := ConvertTuple(Mazegen, name, |parts|, nested, sep, value);
    items := t.value.items;
    assert ConvertAll(Mazegen, name, nested, parts) == Ok(items);
    assert r == ToDict(name, value, items);
    ConvertAllSpec(Mazegen, name, nested, parts, items);
    DictEntriesSpec(name, value, items);
  }

  /** The legacy parser builds a dict only from the empty string. */
  lemma LegacyDictSpec(name: string, nested: seq<TypeSpec>, sep: string, value: string)
    ensures Convert(Legacy, name, DictSpec(nested, sep), value).Ok? <==> value == []
    ensures Convert(Legacy, name, DictSpec(nested, sep), value).Ok? ==> Convert(Legacy, name, DictSpec(nested, sep), value).value == DictV([])
  {
  }

  /** A dict spec fails when some part does not convert to a 2-tuple with a hashable key. */
  lemma DictSpecRejects(name: string, nested: seq<TypeSpec>, sep: string, value: string, i: nat)
    requires sep != [] && |nested| == |Split(value, sep)| && i < |nested|
    requires Convert(Mazegen, name, nested[i], Split(value, sep)[i]).Ok?
    requires !KeyValuePair(Convert(Mazegen, name, nested[i], Split(value, sep)[i]).value)
    ensures Convert(Mazegen, name, DictSpec(nested, sep), value).Err?
  {
    if Convert(Mazegen, name, DictSpec(nested, sep), value).Ok? {
      var items := DictSpecShape(name, nested, sep, value);
      assert false;
    }
  }
}
