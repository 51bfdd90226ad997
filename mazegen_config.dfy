/**
 * The configuration registry of the mazegen package: parameters registered
 * with a default and a type spec, a file of `NAME=VALUE` lines with comments
 * and blank lines, and a final check that every parameter has a value.
 */
module MazegenConfig {
  import opened Wrappers
  import opened PyText
  import opened ConfigTypes
  import opened ConfigLines

  class Config {
    /** name -> [value, spec, already set]; order is the dict's insertion order. */
    var params: map<string, Param>
    var order: seq<string>
    var commentary: string

    ghost predicate Valid()
      reads this
    {
      (forall i, j :: 0 <= i < j < |order| ==> order[i] != order[j])
      && (forall k :: k in params <==> k in order)
    }

    /** An empty registry whose comment prefix is "#". */
    constructor()
      ensures Valid()
      ensures params == map[] && order == [] && commentary == "#"
    {
      params := map[];
      order := [];
      commentary := "#";
    }

    method SetCommentaryStr(c: string)
      modifies this
      ensures commentary == c
      ensures params == old(params) && order == old(order)
    {
      commentary := c;
    }

    function GetCommentaryStr(): string
      reads this
    {
      commentary
    }

    /**
     * add_parameter: the entry becomes [default, spec, False]; a new name goes
     * last, a registered one keeps its position and has its flag reset.
     */
    method AddParameter(name: string, default: Option<Value>, spec: TypeSpec)
      requires Valid()
      modifies this
      ensures Valid()
      ensures params == old(params)[name := Param(default, spec, false)]
      ensures order == if name in old(params) then old(order) else old(order) + [name]
      ensures commentary == old(commentary)
      ensures GetValue(name) == default
      ensures forall k :: k != name ==> GetValue(k) == old(GetValue(k))
    {
      if name !in params {
        order := order + [name];
      }
      params := params[name := Param(default, spec, false)];
    }

    /** get_value: the stored value, None for an unregistered name. */
    function GetValue(name: string): (r: Option<Value>)
      reads this
      ensures name !in params ==> r == None
      ensures name in params ==> r == params[name].value
    {
      if name in params then params[name].value else None
    }

    /** check_config: the missing-values error, if any parameter has no value. */
    function CheckConfig(): (r: Option<Failure>)
      reads this
      requires Valid()
      ensures r.None? <==> forall k :: k in params ==> params[k].value.Some?
      ensures r.Some? ==> (r.value.MissingValues?
        && forall k :: k in r.value.keys <==> k in params && params[k].value.None?)
    {
      CheckParamsSpec(params, order);
      CheckParams(params, order)
    }

    /**
     * parse_file over the lines of a file: the table is left as the run left
     * it (also when it stopped at an exception), and the result is that
     * exception or check_config's.
     */
    method ParseFile(lines: seq<string>) returns (err: Option<Failure>)
      requires Valid()
      modifies this
      ensures Valid()
      ensures order == old(order) && commentary == old(commentary)
      ensures Outcome(params, err) == ParseOutcome(Mazegen, commentary, old(params), order, lines)
    {
      ghost var p0 := params;
      var i := 0;
      while i < |lines|
        invariant 0 <= i <= |lines|
        invariant Run(Mazegen, commentary, p0, lines[..i]) == Outcome(params, None)
        invariant params.Keys == p0.Keys
        invariant order == old(order) && commentary == old(commentary)
      {
        var e, updated := ParseLine(params, commentary, lines[i]);
        RunAdvance(Mazegen, commentary, p0, lines, i, params, e, updated);
        params := updated;
        if e.Some? {
          RunFailedLine(Mazegen, commentary, p0, lines, i + 1);
          return e;
        }
        i := i + 1;
      }
      assert lines[..i] == lines;
      err := CheckConfig();
    }
  }

  /**
   * One iteration of the parsing loop: skip a blank or comment line, otherwise
   * split it, look the name up, convert the value, and store it with its flag raised.
   */
  method ParseLine(params: map<string, Param>, commentary: string, line: string) returns (e: Option<Failure>, updated: map<string, Param>)
    ensures Step(Mazegen, params, Classify(Mazegen, commentary, line)) == if e.Some? then Err(e.value) else Ok(updated)
    ensures e.Some? ==> updated == params
  {
    updated := params;
    MazegenClassify(commentary, line);
    if line == "\n" || StartsWith(line, commentary) {
      return None, updated;
    }
    var nv := GetUnprocessedValue(line);
    if nv.Err? {
      return Some(nv.error), updated;
    }
    var name := nv.value.0;
    if name !in params {
      return Some(UnknownParameter(name)), updated;
    }
    var conv := ApplyTypes(Mazegen, name, params[name], nv.value.1);
    if conv.Err? {
      return Some(conv.error), updated;
    }
    updated := params[name := Param(Some(conv.value), params[name].spec, true)];
    return None, updated;
  }
}
