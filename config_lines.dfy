/**
 * The line-by-line part of the typed configuration parsers: splitting a
 * `NAME=VALUE` line, the effect of one line on the parameter table, a whole
 * run over the lines of a file, and the final check for missing values.
 */
module ConfigLines {
  import opened Wrappers
  import opened PyText
  import opened ConfigTypes

  /** get_unprocessed_value: exactly one "=", then the stripped name and the stripped value. */
  function GetUnprocessedValue(line: string): (r: Result<(string, string), Failure>)
    ensures r.Err? <==> CountChar(line, '=') != 1
    ensures r.Err? ==> r.error == UndefinedLine(line)
  {
    if CountChar(line, '=') != 1 then Err(UndefinedLine(line))
    else
      SplitCharCount(line, '=');
      var parts := Split(line, "=");
      Ok((Strip(parts[0]), Strip(parts[1])))
  }

  /** The legacy get_value: exactly one "=", the name as it stands, the value without "\n" and stripped. */
  function LegacyGetValue(line: string): (r: Result<(string, string), Failure>)
    ensures r.Err? <==> CountChar(line, '=') != 1
    ensures r.Err? ==> r.error == UndefinedLine(line)
  {
    if CountChar(line, '=') != 1 then Err(UndefinedLine(line))
    else
      SplitCharCount(line, '=');
      var parts := Split(line, "=");
      Ok((parts[0], Strip(RemoveChar(parts[1], '\n'))))
  }

  /** A line with one "=" is the name part, the "=", and the value part; both results are stripped. */
  lemma GetUnprocessedValueSpec(line: string) returns (a: string, b: string)
    requires CountChar(line, '=') == 1
    ensures line == a + "=" + b && '=' !in a && '=' !in b
    ensures GetUnprocessedValue(line) == Ok((Strip(a), Strip(b)))
  {
    SplitOnce(line, '=');
    a, b := Split(line, "=")[0], Split(line, "=")[1];
  }

  /** The legacy split keeps the name unstripped and drops every "\n" from the value. */
  lemma LegacyGetValueSpec(line: string) returns (a: string, b: string)
    requires CountChar(line, '=') == 1
    ensures line == a + "=" + b && '=' !in a && '=' !in b
    ensures LegacyGetValue(line) == Ok((a, Strip(RemoveChar(b, '\n'))))
    ensures '\n' !in LegacyGetValue(line).value.1
  {
    SplitOnce(line, '=');
    a, b := Split(line, "=")[0], Split(line, "=")[1];
    var lo, hi := StripSlice(RemoveChar(b, '\n'));
  }

  /** Blank lines and comment lines are skipped by the current parser only. */
  predicate Skip(d: Dialect, commentary: string, line: string)
  {
    d == Mazegen && (line == "\n" || StartsWith(line, commentary))
  }

  function LineAssignment(d: Dialect, line: string): (r: Result<(string, string), Failure>)
    ensures r.Err? <==> CountChar(line, '=') != 1
  {
    if d == Mazegen then GetUnprocessedValue(line) else LegacyGetValue(line)
  }

  /** A line as the parsing loop sees it. */
  datatype Line = Skipped | Assignment(name: string, value: string) | Malformed(text: string)

  function Classify(d: Dialect, commentary: string, line: string): (l: Line)
    ensures l.Skipped? <==> Skip(d, commentary, line)
    ensures l.Malformed? <==> !Skip(d, commentary, line) && CountChar(line, '=') != 1
    ensures l.Malformed? ==> l.text == line
    ensures l.Assignment? ==> LineAssignment(d, line) == Ok((l.name, l.value))
  {
    if Skip(d, commentary, line) then Skipped
    else
      match LineAssignment(d, line)
      case Ok(nv) => Assignment(nv.0, nv.1)
      case Err(_) => Malformed(line)
  }

  /** The earlier parser classifies every line by its splitter alone. */
  lemma LegacyClassify(line: string)
    ensures Classify(Legacy, "", line) ==
      match LegacyGetValue(line)
      case Ok(nv) => Assignment(nv.0, nv.1)
      case Err(_) => Malformed(line)
  {
  }

  /** The current parser skips blank and comment lines and splits the others once. */
  lemma MazegenClassify(commentary: string, line: string)
    ensures Classify(Mazegen, commentary, line) ==
      if line == "\n" || StartsWith(line, commentary) then Skipped
      else
        match GetUnprocessedValue(line)
        case Ok(nv) => Assignment(nv.0, nv.1)
        case Err(_) => Malformed(line)
  {
  }

  /** The lines of a file, classified. */
  function Classified(d: Dialect, commentary: string, lines: seq<string>): (ls: seq<Line>)
    ensures |ls| == |lines|
  {
    if lines == [] then []
    else Classified(d, commentary, lines[..|lines| - 1]) + [Classify(d, commentary, lines[|lines| - 1])]
  }

  /** Classifying a prefix of the lines gives the same prefix of classified lines. */
  lemma {:induction false} ClassifiedTake(d: Dialect, c: string, lines: seq<string>, i: nat)
    requires i <= |lines|
    ensures Classified(d, c, lines)[..i] == Classified(d, c, lines[..i])
    ensures i < |lines| ==> Classified(d, c, lines)[i] == Classify(d, c, lines[i])
    decreases |lines|
  {
    if i < |lines| {
      var n := |lines| - 1;
      assert lines[..n][..i] == lines[..i];
      if i < n {
        ClassifiedTake(d, c, lines[..n], i);
      }
    } else {
      assert lines[..i] == lines;
    }
  }

  /** One iteration of parse_file: skip, or reject a malformed line, or look the name up, convert, store and flag. */
  function Step(d: Dialect, params: map<string, Param>, l: Line): (r: Result<map<string, Param>, Failure>)
    ensures r.Ok? ==> r.value.Keys == params.Keys
    ensures r.Ok? ==> forall k :: k in params ==> r.value[k].spec == params[k].spec
  {
    match l
    case Skipped => Ok(params)
    case Malformed(t) => Err(UndefinedLine(t))
    case Assignment(n, v) =>
      if n !in params then Err(UnknownParameter(n))
      else
        match ApplyTypes(d, n, params[n], v)
        case Err(e) => Err(e)
        case Ok(x) => Ok(params[n := Param(Some(x), params[n].spec, true)])
  }

  /** The table after a run, and the exception that stopped it, if any; updates before it persist. */
  datatype Outcome = Outcome(params: map<string, Param>, err: Option<Failure>)

  /** The parsing loop over classified lines in order, stopping at the first exception. */
  function RunLines(d: Dialect, params: map<string, Param>, ls: seq<Line>): Outcome
  {
    if ls == [] then Outcome(params, None)
    else
      var o := RunLines(d, params, ls[..|ls| - 1]);
      if o.err.Some? then o
      else
        match Step(d, o.params, ls[|ls| - 1])
        case Err(e) => Outcome(o.params, Some(e))
        case Ok(q) => Outcome(q, None)
  }

  /** The parsing loop over the lines of a file. */
  function Run(d: Dialect, commentary: string, params: map<string, Param>, lines: seq<string>): Outcome
  {
    RunLines(d, params, Classified(d, commentary, lines))
  }

  /** The (name, value) assignments in order, when no line is malformed. */
  function Pairs(ls: seq<Line>): Option<seq<(string, string)>>
  {
    if ls == [] then Some([])
    else
      match Pairs(ls[..|ls| - 1])
      case None => None
      case Some(ps) =>
        (match ls[|ls| - 1]
         case Skipped => Some(ps)
         case Malformed(_) => None
         case Assignment(n, v) => Some(ps + [(n, v)]))
  }

  /** No assignment names k. */
  predicate Unassigned(pairs: seq<(string, string)>, k: string)
  {
    forall i :: 0 <= i < |pairs| ==> pairs[i].0 != k
  }

  /** Each assignment names a registered, still unset parameter whose spec accepts the value; no name twice. */
  predicate Fits(d: Dialect, p: map<string, Param>, pairs: seq<(string, string)>)
  {
    (forall i :: 0 <= i < |pairs| ==>
       pairs[i].0 in p && !p[pairs[i].0].isSet && Convert(d, pairs[i].0, p[pairs[i].0].spec, pairs[i].1).Ok?)
    && (forall i, j :: 0 <= i < j < |pairs| ==> pairs[i].0 != pairs[j].0)
  }

  /** The entry an accepted assignment leaves: the converted value, the same spec, flagged as set. */
  function Assigned(d: Dialect, p: map<string, Param>, pair: (string, string)): Param
    requires pair.0 in p && Convert(d, pair.0, p[pair.0].spec, pair.1).Ok?
  {
    Param(Some(Convert(d, pair.0, p[pair.0].spec, pair.1).value), p[pair.0].spec, true)
  }

  // ---------------------------------------------------------------------

  /** A run never adds or removes a parameter and never changes a spec. */
  lemma {:induction false} RunKeys(d: Dialect, p: map<string, Param>, ls: seq<Line>)
    ensures RunLines(d, p, ls).params.Keys == p.Keys
    ensures forall k :: k in p ==> RunLines(d, p, ls).params[k].spec == p[k].spec
  {
    if ls != [] {
      RunKeys(d, p, ls[..|ls| - 1]);
    }
  }

  /** Once a run has failed, later lines change nothing. */
  lemma {:induction false} RunFailed(d: Dialect, p: map<string, Param>, ls: seq<Line>, i: nat)
    requires i <= |ls| && RunLines(d, p, ls[..i]).err.Some?
    ensures RunLines(d, p, ls) == RunLines(d, p, ls[..i])
    decreases |ls|
  {
    if i < |ls| {
      var n := |ls| - 1;
      assert ls[..n][..i] == ls[..i];
      RunFailed(d, p, ls[..n], i);
    } else {
      assert ls[..i] == ls;
    }
  }

  /** The run over one more line. */
  lemma RunNext(d: Dialect, p: map<string, Param>, ls: seq<Line>, i: nat)
    requires i < |ls|
    ensures RunLines(d, p, ls[..i + 1]) ==
      (var o := RunLines(d, p, ls[..i]);
       if o.err.Some? then o
       else match Step(d, o.params, ls[i])
         case Err(e) => Outcome(o.params, Some(e))
         case Ok(q) => Outcome(q, None))
  {
    assert ls[..i + 1][..i] == ls[..i];
  }

  /** The run over the first i + 1 lines of a file is one more step after the run over the first i. */
  lemma RunNextLine(d: Dialect, c: string, p: map<string, Param>, lines: seq<string>, i: nat)
    requires i < |lines|
    ensures Run(d, c, p, lines[..i + 1]) ==
      (var o := Run(d, c, p, lines[..i]);
       if o.err.Some? then o
       else match Step(d, o.params, Classify(d, c, lines[i]))
         case Err(e) => Outcome(o.params, Some(e))
         case Ok(q) => Outcome(q, None))
  {
    assert lines[..i + 1][..i] == lines[..i];
    var ls := Classified(d, c, lines[..i + 1]);
    assert ls == Classified(d, c, lines[..i]) + [Classify(d, c, lines[i])];
    assert ls[..i] == Classified(d, c, lines[..i]);
  }

  /** A loop iteration that performs the step of line i extends the run over the first i lines by one. */
  lemma RunAdvance(d: Dialect, c: string, p: map<string, Param>, lines: seq<string>, i: nat,
                   params: map<string, Param>, e: Option<Failure>, updated: map<string, Param>)
    requires i < |lines| && Run(d, c, p, lines[..i]) == Outcome(params, None)
    requires Step(d, params, Classify(d, c, lines[i])) == if e.Some? then Err(e.value) else Ok(updated)
    requires e.Some? ==> updated == params
    ensures Run(d, c, p, lines[..i + 1]) == Outcome(updated, e)
  {
    RunNextLine(d, c, p, lines, i);
  }

  /** Once the run over the first i lines of a file has failed, the rest of the file changes nothing. */
  lemma RunFailedLine(d: Dialect, c: string, p: map<string, Param>, lines: seq<string>, i: nat)
    requires i <= |lines| && Run(d, c, p, lines[..i]).err.Some?
    ensures Run(d, c, p, lines) == Run(d, c, p, lines[..i])
  {
    ClassifiedTake(d, c, lines, i);
    RunFailed(d, p, Classified(d, c, lines), i);
  }

  /**
   * A run that raises nothing consumed no malformed line, and its assignments
   * name registered, unset parameters, each at most once, with values their
   * specs accept; each named parameter now holds its converted value and is
   * flagged, and every other parameter is as before.
   */
  lemma {:induction false} RunAccepted(d: Dialect, p: map<string, Param>, ls: seq<Line>) returns (pairs: seq<(string, string)>)
    requires RunLines(d, p, ls).err == None
    ensures Pairs(ls) == Some(pairs) && Fits(d, p, pairs)
    ensures RunLines(d, p, ls).params.Keys == p.Keys
    ensures forall i :: 0 <= i < |pairs| ==> RunLines(d, p, ls).params[pairs[i].0] == Assigned(d, p, pairs[i])
    ensures forall k :: k in p && Unassigned(pairs, k) ==> RunLines(d, p, ls).params[k] == p[k]
  {
    if ls == [] {
      pairs := [];
    } else {
      var n := |ls| - 1;
      var o := RunLines(d, p, ls[..n]);
      var pre := RunAccepted(d, p, ls[..n]);
      match ls[n]
      case Skipped =>
        pairs := pre;
      case Assignment(name, value) =>
        var nv := (name, value);
        AcceptOne(d, p, pre, o.params, nv);
        pairs := pre + [nv];
        assert RunLines(d, p, ls).params == o.params[nv.0 := Assigned(d, p, nv)];
    }
  }

  /** Extending an accepted prefix by one assignment that Step accepts. */
  lemma AcceptOne(d: Dialect, p: map<string, Param>, pre: seq<(string, string)>, params: map<string, Param>, nv: (string, string))
    requires Fits(d, p, pre) && params.Keys == p.Keys
    requires forall i :: 0 <= i < |pre| ==> params[pre[i].0] == Assigned(d, p, pre[i])
    requires forall k :: k in p && Unassigned(pre, k) ==> params[k] == p[k]
    requires nv.0 in params && ApplyTypes(d, nv.0, params[nv.0], nv.1).Ok?
    ensures Unassigned(pre, nv.0) && params[nv.0] == p[nv.0]
    ensures Fits(d, p, pre + [nv])
    ensures ApplyTypes(d, nv.0, params[nv.0], nv.1).value == Convert(d, nv.0, p[nv.0].spec, nv.1).value
    ensures forall i :: 0 <= i < |pre| + 1 ==> params[nv.0 := Assigned(d, p, nv)][(pre + [nv])[i].0] == Assigned(d, p, (pre + [nv])[i])
    ensures forall k :: k in p && Unassigned(pre + [nv], k) ==> params[nv.0 := Assigned(d, p, nv)][k] == p[k]
  {
    AcceptFresh(d, p, pre, params, nv.0);
    FitsSnoc(d, p, pre, nv);
    var q := params[nv.0 := Assigned(d, p, nv)];
    forall i | 0 <= i < |pre| + 1
      ensures q[(pre + [nv])[i].0] == Assigned(d, p, (pre + [nv])[i])
    {
      if i < |pre| {
        assert (pre + [nv])[i] == pre[i];
      }
    }
    UnassignedSnoc(pre, nv);
  }

  /** A name whose parameter is still unset was not assigned by the accepted prefix. */
  lemma AcceptFresh(d: Dialect, p: map<string, Param>, pre: seq<(string, string)>, params: map<string, Param>, name: string)
    requires Fits(d, p, pre) && params.Keys == p.Keys
    requires forall i :: 0 <= i < |pre| ==> params[pre[i].0] == Assigned(d, p, pre[i])
    requires forall k :: k in p && Unassigned(pre, k) ==> params[k] == p[k]
    requires name in params && !params[name].isSet
    ensures Unassigned(pre, name) && params[name] == p[name]
  {
    forall i | 0 <= i < |pre|
      ensures pre[i].0 != name
    {
      assert params[pre[i].0].isSet;
    }
  }

  /** One more assignment of a fresh, registered, unset parameter whose value converts still fits. */
  lemma FitsSnoc(d: Dialect, p: map<string, Param>, pre: seq<(string, string)>, nv: (string, string))
    requires Fits(d, p, pre) && Unassigned(pre, nv.0)
    requires nv.0 in p && !p[nv.0].isSet && Convert(d, nv.0, p[nv.0].spec, nv.1).Ok?
    ensures Fits(d, p, pre + [nv])
  {
    var ps := pre + [nv];
    assert forall i :: 0 <= i < |pre| ==> ps[i] == pre[i];
    assert ps[|pre|] == nv;
  }

  /** A name unassigned by the prefix and the new pair was unassigned by the prefix, and differs from the new name. */
  lemma UnassignedSnoc(pre: seq<(string, string)>, nv: (string, string))
    ensures forall k :: Unassigned(pre + [nv], k) ==> Unassigned(pre, k) && k != nv.0
  {
    forall k | Unassigned(pre + [nv], k)
      ensures Unassigned(pre, k) && k != nv.0
    {
      assert (pre + [nv])[|pre|] == nv;
      forall i | 0 <= i < |pre|
        ensures pre[i].0 != k
      {
        assert (pre + [nv])[i] == pre[i];
      }
    }
  }

  /** Conversely, lines with no malformed one whose assignments fit the table are accepted. */
  lemma {:induction false} RunAccepts(d: Dialect, p: map<string, Param>, ls: seq<Line>, pairs: seq<(string, string)>)
    requires Pairs(ls) == Some(pairs) && Fits(d, p, pairs)
    ensures RunLines(d, p, ls).err == None
  {
    if ls != [] {
      var n := |ls| - 1;
      var pre := Pairs(ls[..n]).value;
      assert Fits(d, p, pre) by {
        assert pairs == pre || pairs == pre + [pairs[|pairs| - 1]];
        assert forall i :: 0 <= i < |pre| ==> pre[i] == pairs[i];
      }
      RunAccepts(d, p, ls[..n], pre);
      var got := RunAccepted(d, p, ls[..n]);
      if ls[n].Assignment? {
        var nv := (ls[n].name, ls[n].value);
        assert pairs == pre + [nv];
        assert pairs[|pre|] == nv;
        assert Unassigned(pre, nv.0) by {
          assert forall i :: 0 <= i < |pre| ==> pre[i] == pairs[i];
        }
        var o := RunLines(d, p, ls[..n]);
        assert o.params[nv.0] == p[nv.0];
        assert Step(d, o.params, ls[n]).Ok?;
      }
    }
  }

  /** A second assignment of a parameter is always a double declaration, since the first one set its flag. */
  lemma Redeclaration(d: Dialect, p: map<string, Param>, ls: seq<Line>, name: string, value: string, i: nat)
    requires RunLines(d, p, ls).err == None
    requires Pairs(ls).Some? && i < |Pairs(ls).value| && Pairs(ls).value[i].0 == name
    ensures RunLines(d, p, ls + [Assignment(name, value)]) ==
      Outcome(RunLines(d, p, ls).params, Some(DoubleDeclaration(name)))
  {
    var pairs := RunAccepted(d, p, ls);
    var o := RunLines(d, p, ls);
    var ls' := ls + [Assignment(name, value)];
    assert ls'[..|ls'| - 1] == ls;
    assert o.params[name] == Assigned(d, p, pairs[i]);
    assert Step(d, o.params, Assignment(name, value)) == Err(DoubleDeclaration(name));
  }

  /** An assignment to an unregistered parameter stops the run. */
  lemma UnknownRejected(d: Dialect, p: map<string, Param>, ls: seq<Line>, i: nat)
    requires Pairs(ls).Some? && i < |Pairs(ls).value| && Pairs(ls).value[i].0 !in p
    ensures RunLines(d, p, ls).err.Some?
  {
    if RunLines(d, p, ls).err == None {
      var pairs := RunAccepted(d, p, ls);
      assert false;
    }
  }

  /** A malformed line stops the run. */
  lemma MalformedRejected(d: Dialect, p: map<string, Param>, ls: seq<Line>, i: nat)
    requires i < |ls| && ls[i].Malformed?
    ensures RunLines(d, p, ls).err.Some?
  {
    if RunLines(d, p, ls).err == None {
      var pairs := RunAccepted(d, p, ls);
      PairsMalformed(ls, i);
      assert false;
    }
  }

  lemma {:induction false} PairsMalformed(ls: seq<Line>, i: nat)
    requires i < |ls| && ls[i].Malformed?
    ensures Pairs(ls) == None
  {
    var n := |ls| - 1;
    if i < n {
      PairsMalformed(ls[..n], i);
    }
  }

  // ---------------------------------------------------------------------

  /** The keys whose value is None, in table order. */
  function MissingKeys(params: map<string, Param>, order: seq<string>): (r: seq<string>)
    ensures forall k :: k in r <==> k in order && k in params && params[k].value.None?
  {
    if order == [] then []
    else
      var rest := MissingKeys(params, order[..|order| - 1]);
      var k := order[|order| - 1];
      if k in params && params[k].value.None? then rest + [k] else rest
  }

  /** check_config: an exception listing the missing keys, if there are any. */
  function CheckParams(params: map<string, Param>, order: seq<string>): Option<Failure>
  {
    var missing := MissingKeys(params, order);
    if missing == [] then None else Some(MissingValues(missing))
  }

  /** check_config raises exactly when some registered parameter has no value, and names exactly those. */
  lemma CheckParamsSpec(params: map<string, Param>, order: seq<string>)
    requires forall k :: k in params <==> k in order
    ensures CheckParams(params, order).None? <==> forall k :: k in params ==> params[k].value.Some?
    ensures CheckParams(params, order).Some? ==>
      CheckParams(params, order).value.MissingValues?
      && forall k :: k in CheckParams(params, order).value.keys <==> k in params && params[k].value.None?
  {
    var m := MissingKeys(params, order);
    if m != [] {
      assert m[0] in m;
    }
    if exists k :: k in params && params[k].value.None? {
      var k :| k in params && params[k].value.None?;
      assert k in m;
    }
  }

  /** parse_file as a whole: the run, then check_config when the run raised nothing. */
  function ParseOutcome(d: Dialect, c: string, p: map<string, Param>, order: seq<string>, lines: seq<string>): Outcome
  {
    var o := Run(d, c, p, lines);
    if o.err.Some? then o else Outcome(o.params, CheckParams(o.params, order))
  }
}
