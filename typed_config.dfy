/**
 * The earlier typed configuration registry: the same parameter table as the
 * mazegen package, but every line of the file is an assignment (no comment or
 * blank-line skipping) and values are read with the older line splitter.
 */
module TypedConfig {
  import opened Wrappers
  import opened ConfigTypes
  import opened ConfigLines

  class Config {
    /** name -> [value, spec, already set]; order is the dict's insertion order. */
    var params: map<string, Param>
    var order: seq<string>

    ghost predicate Valid()
      reads this
    {
      (forall i, j :: 0 <= i < j < |order| ==> order[i] != order[j])
      && (forall k :: k in params <==> k in order)
    }

    /** An empty registry. */
    constructor()
      ensures Valid()
      ensures params == map[] && order == []
    {
      params := map[];
      order := [];
    }

    /** add_parameter: the entry becomes [default, spec, False], replacing any earlier one. */
    method AddParameter(name: string, default: Option<Value>, spec: TypeSpec)
      requires Valid()
      modifies this
      ensures Valid()
      ensures params == old(params)[name := Param(default, spec, false)]
      ensures order == if name in old(params) then old(order) else old(order) + [name]
      ensures GetValue(name) == default
      ensures forall k :: k != name ==> GetValue(k) == old(GetValue(k))
    {
      if name !in params {
        order := order + [name];
      }
      params := params[name := Param(default, spec, false)];
    }

    /** get_value: the stored value, None for an unregistered name. */
    function GetValue(name: string): (r: Option<Value>)
      reads this
      ensures name !in params ==> r == None
      ensures name in params ==> r == params[name].value
    {
      if name in params then params[name].value else None
    }

    /**
     * parse_file: every line is an assignment; the table is left as the run
     * left it, and the result is the first exception or check_config's.
     */
    method ParseFile(lines: seq<string>) returns (err: Option<Failure>)
      requires Valid()
      modifies this
      ensures Valid()
      ensures order == old(order)
      ensures Outcome(params, err) == ParseOutcome(Legacy, "", old(params), order, lines)
    {
      ghost var p0 := params;
      var i := 0;
      while i < |lines|
        invariant 0 <= i <= |lines|
        invariant Run(Legacy, "", p0, lines[..i]) == Outcome(params, None)
        invariant params.Keys == p0.Keys
        invariant order == old(order)
      {
        var e, updated := ParseLine(params, lines[i]);
        RunAdvance(Legacy, "", p0, lines, i, params, e, updated);
        params := updated;
        if e.Some? {
          RunFailedLine(Legacy, "", p0, lines, i + 1);
          return e;
        }
        i := i + 1;
      }
      assert lines[..i] == lines;
      err := CheckParams(params, order);
    }
  }

  /**
   * One iteration of the parsing loop: split the line, look the name up,
   * convert the value, and store it with its flag raised.
   */
  method ParseLine(params: map<string, Param>, line: string) returns (e: Option<Failure>, updated: map<string, Param>)
    ensures Step(Legacy, params, Classify(Legacy, "", line)) == if e.Some? then Err(e.value) else Ok(updated)
    ensures e.Some? ==> updated == params
  {
    updated := params;
    var nv := LegacyGetValue(line);
    LegacyClassify(line);
    if nv.Err? {
      return Some(nv.error), updated;
    }
    var name := nv.value.0;
    if name !in params {
      return Some(UnknownParameter(name)), updated;
    }
    var conv := ApplyTypes(Legacy, name, params[name], nv.value.1);
    if conv.Err? {
      return Some(conv.error), updated;
    }
    updated := params[name := Param(Some(conv.value), params[name].spec, true)];
    return None, updated;
  }
}
