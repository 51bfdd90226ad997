/**
 * The first configuration reader of the program: a fixed table of six keys,
 * all unset, filled from `NAME=VALUE` lines. Values stay strings, a repeated
 * key overwrites the earlier value, and every error is reported instead of
 * raised, leaving the table as far as it was filled.
 */
module RawConfig {
  import opened Wrappers
  import opened PyText
  import opened ConfigTypes
  import opened ConfigLines

  /** The keys of the table, in insertion order (with the key spelled as in the program). */
  const TableKeys: seq<string> := ["WIDHT", "HEIGHT", "ENTRY", "EXIT", "OUTPUT_FILE", "PERFECT"]

  type Table = map<string, Option<string>>

  /** The table before parsing: every key present, every value None. */
  function InitialTable(): (t: Table)
    ensures t.Keys == set k | k in TableKeys
    ensures forall k :: k in t ==> t[k] == None
  {
    map k | k in TableKeys :: None
  }

  /** get_value: exactly one "=", then the name as it stands and the value with every "\n" removed. */
  function GetValue(line: string): (r: Result<(string, string), Failure>)
    ensures r.Err? <==> CountChar(line, '=') != 1
    ensures r.Err? ==> r.error == UndefinedLine(line)
  {
    if CountChar(line, '=') != 1 then Err(UndefinedLine(line))
    else
      SplitCharCount(line, '=');
      var parts := Split(line, "=");
      Ok((parts[0], RemoveChar(parts[1], '\n')))
  }

  /** A line with one "=" is the name, the "=", and the raw value; the value keeps everything but newlines. */
  lemma GetValueSpec(line: string) returns (a: string, b: string)
    requires CountChar(line, '=') == 1
    ensures line == a + "=" + b && '=' !in a && '=' !in b
    ensures GetValue(line) == Ok((a, RemoveChar(b, '\n')))
    ensures '\n' !in GetValue(line).value.1
    ensures |GetValue(line).value.1| + CountChar(b, '\n') == |b|
  {
    SplitOnce(line, '=');
    a, b := Split(line, "=")[0], Split(line, "=")[1];
  }

  /** A line as this reader sees it: an assignment or a malformed line (nothing is skipped). */
  function RawClassify(line: string): (l: Line)
    ensures !l.Skipped?
    ensures l.Malformed? <==> CountChar(line, '=') != 1
    ensures l.Malformed? ==> l.text == line
    ensures l.Assignment? ==> GetValue(line) == Ok((l.name, l.value))
  {
    match GetValue(line)
    case Ok(nv) => Assignment(nv.0, nv.1)
    case Err(_) => Malformed(line)
  }

  function RawClassified(lines: seq<string>): (ls: seq<Line>)
    ensures |ls| == |lines|
  {
    if lines == [] then []
    else RawClassified(lines[..|lines| - 1]) + [RawClassify(lines[|lines| - 1])]
  }

  /** One iteration of the loop: a known name takes the value (overwriting), an unknown one raises. */
  function RawStep(t: Table, l: Line): (r: Result<Table, Failure>)
    ensures r.Ok? ==> r.value.Keys == t.Keys
  {
    match l
    case Skipped => Ok(t)
    case Malformed(text) => Err(UndefinedLine(text))
    case Assignment(n, v) =>
      if n in t then Ok(t[n := Some(v)]) else Err(UnknownParameter(n))
  }

  /** The table after the loop and the error that stopped it, if any. */
  datatype RawOutcome = RawOutcome(table: Table, err: Option<Failure>)

  function RawRunLines(t: Table, ls: seq<Line>): RawOutcome
  {
    if ls == [] then RawOutcome(t, None)
    else
      var o := RawRunLines(t, ls[..|ls| - 1]);
      if o.err.Some? then o
      else
        match RawStep(o.table, ls[|ls| - 1])
        case Err(e) => RawOutcome(o.table, Some(e))
        case Ok(q) => RawOutcome(q, None)
  }

  function RawRun(t: Table, lines: seq<string>): RawOutcome
  {
    RawRunLines(t, RawClassified(lines))
  }

  /** The keys still None, in table order. */
  function MissingRaw(t: Table, order: seq<string>): (r: seq<string>)
    ensures forall k :: k in r <==> k in order && k in t && t[k] == None
  {
    if order == [] then []
    else
      var rest := MissingRaw(t, order[1..]);
      if order[0] in t && t[order[0]] == None then [order[0]] + rest else rest
  }

  /** check_config: raise the missing-values error when some value is None. */
  function CheckRaw(t: Table): Option<Failure>
  {
    var m := MissingRaw(t, TableKeys);
    if m == [] then None else Some(MissingValues(m))
  }

  /** What parse_file prints: nothing, a configuration error, or a missing file. */
  datatype Report = Quiet | ConfigReport(failure: Failure) | FileNotFound

  /** The table and the report of parse_file over an optional file (None: the file does not exist). */
  function RawParse(t: Table, file: Option<seq<string>>): (RawOutcome, Report)
  {
    match file
    case None => (RawOutcome(t, None), FileNotFound)
    case Some(lines) =>
      var o := RawRun(t, lines);
      if o.err.Some? then (o, ConfigReport(o.err.value))
      else match CheckRaw(o.table)
        case None => (o, Quiet)
        case Some(f) => (o, ConfigReport(f))
  }

  // ---------------------------------------------------------------------

  lemma {:induction false} RawClassifiedTake(lines: seq<string>, i: nat)
    requires i <= |lines|
    ensures RawClassified(lines)[..i] == RawClassified(lines[..i])
    ensures i < |lines| ==> RawClassified(lines)[i] == RawClassify(lines[i])
    decreases |lines|
  {
    if i < |lines| {
      var n := |lines| - 1;
      assert lines[..n][..i] == lines[..i];
      if i < n {
        RawClassifiedTake(lines[..n], i);
      }
    } else {
      assert lines[..i] == lines;
    }
  }

  lemma RawRunNextLine(t: Table, lines: seq<string>, i: nat)
    requires i < |lines|
    ensures RawRun(t, lines[..i + 1]) ==
      (var o := RawRun(t, lines[..i]);
       if o.err.Some? then o
       else match RawStep(o.table, RawClassify(lines[i]))
         case Err(e) => RawOutcome(o.table, Some(e))
         case Ok(q) => RawOutcome(q, None))
  {
    assert lines[..i + 1][..i] == lines[..i];
    var ls := RawClassified(lines[..i + 1]);
    assert ls == RawClassified(lines[..i]) + [RawClassify(lines[i])];
    assert ls[..i] == RawClassified(lines[..i]);
  }

  lemma {:induction false} RawRunFailed(t: Table, ls: seq<Line>, i: nat)
    requires i <= |ls| && RawRunLines(t, ls[..i]).err.Some?
    ensures RawRunLines(t, ls) == RawRunLines(t, ls[..i])
    decreases |ls|
  {
    if i < |ls| {
      var n := |ls| - 1;
      assert ls[..n][..i] == ls[..i];
      RawRunFailed(t, ls[..n], i);
    } else {
      assert ls[..i] == ls;
    }
  }

  lemma RawRunFailedLine(t: Table, lines: seq<string>, i: nat)
    requires i <= |lines| && RawRun(t, lines[..i]).err.Some?
    ensures RawRun(t, lines) == RawRun(t, lines[..i])
  {
    RawClassifiedTake(lines, i);
    RawRunFailed(t, RawClassified(lines), i);
  }

  /** The loop never adds or removes a key. */
  lemma {:induction false} RawRunKeys(t: Table, ls: seq<Line>)
    ensures RawRunLines(t, ls).table.Keys == t.Keys
  {
    if ls != [] {
      RawRunKeys(t, ls[..|ls| - 1]);
    }
  }

  /** A line the loop accepts: an assignment to a key of the table (or a skipped line, which this reader never produces). */
  predicate Accepted(t: Table, l: Line)
  {
    l.Skipped? || (l.Assignment? && l.name in t)
  }

  /** The loop raises nothing exactly when every line is an assignment to a key of the table. */
  lemma {:induction false} RawAcceptedIff(t: Table, ls: seq<Line>)
    ensures RawRunLines(t, ls).err.None? <==> forall i :: 0 <= i < |ls| ==> Accepted(t, ls[i])
  {
    if ls != [] {
      var n := |ls| - 1;
      RawAcceptedIff(t, ls[..n]);
      RawRunKeys(t, ls[..n]);
      assert forall i :: 0 <= i < n ==> ls[..n][i] == ls[i];
    }
  }

  /** The first line the loop does not accept determines the error; the table is as the lines before it left it. */
  lemma {:induction false} RawFirstError(t: Table, ls: seq<Line>, i: nat)
    requires i < |ls| && !Accepted(t, ls[i])
    requires forall j :: 0 <= j < i ==> Accepted(t, ls[j])
    ensures RawRunLines(t, ls).table == RawRunLines(t, ls[..i]).table
    ensures RawRunLines(t, ls).err ==
      Some(if ls[i].Malformed? then UndefinedLine(ls[i].text) else UnknownParameter(ls[i].name))
  {
    RawAcceptedIff(t, ls[..i]);
    assert forall j :: 0 <= j < i ==> ls[..i][j] == ls[j];
    RawRunKeys(t, ls[..i]);
    assert ls[..i + 1][..i] == ls[..i];
    RawRunFailed(t, ls, i + 1);
  }

  /** A key no line assigns keeps its initial value, whether or not the loop stopped early. */
  lemma {:induction false} RawUntouched(t: Table, ls: seq<Line>, k: string)
    requires k in t
    requires forall j :: 0 <= j < |ls| && ls[j].Assignment? ==> ls[j].name != k
    ensures k in RawRunLines(t, ls).table && RawRunLines(t, ls).table[k] == t[k]
  {
    if ls != [] {
      var n := |ls| - 1;
      assert forall j :: 0 <= j < n ==> ls[..n][j] == ls[j];
      RawUntouched(t, ls[..n], k);
      RawRunKeys(t, ls[..n]);
    }
  }

  /**
   * After a run that raised nothing, a key holds the value of the LAST line
   * that assigns it: a repeated key overwrites, unlike the typed parsers.
   */
  lemma {:induction false} RawLastAssignment(t: Table, ls: seq<Line>, i: nat)
    requires i < |ls| && ls[i].Assignment?
    requires RawRunLines(t, ls).err.None?
    requires forall j :: i < j < |ls| && ls[j].Assignment? ==> ls[j].name != ls[i].name
    ensures ls[i].name in RawRunLines(t, ls).table
    ensures RawRunLines(t, ls).table[ls[i].name] == Some(ls[i].value)
    decreases |ls|
  {
    var n := |ls| - 1;
    var o := RawRunLines(t, ls[..n]);
    RawRunKeys(t, ls[..n]);
    assert o.err.None?;
    if i < n {
      assert forall j :: i < j < n ==> ls[..n][j] == ls[j];
      RawLastAssignment(t, ls[..n], i);
    }
  }

  /** Assigning the same key twice is accepted and keeps the second value. */
  lemma Overwrite(k: string, v1: string, v2: string)
    requires k in TableKeys
    ensures RawRunLines(InitialTable(), [Assignment(k, v1), Assignment(k, v2)]) ==
      RawOutcome(InitialTable()[k := Some(v2)], None)
  {
    var t := InitialTable();
    var ls := [Assignment(k, v1), Assignment(k, v2)];
    assert k in t;
    assert ls[..1][..0] == [];
    assert ls[..1] == [Assignment(k, v1)];
    assert RawRunLines(t, []) == RawOutcome(t, None);
    assert RawRunLines(t, ls[..1]) == RawOutcome(t[k := Some(v1)], None);
    assert t[k := Some(v1)][k := Some(v2)] == t[k := Some(v2)];
  }

  /** check_config raises exactly when some key of the table is None, listing those keys. */
  lemma CheckRawSpec(t: Table)
    requires t.Keys == set k | k in TableKeys
    ensures CheckRaw(t).None? <==> forall k :: k in t ==> t[k].Some?
    ensures CheckRaw(t).Some? ==> CheckRaw(t).value.MissingValues?
    ensures CheckRaw(t).Some? ==> forall k :: k in CheckRaw(t).value.keys <==> k in t && t[k] == None
  {
    var m := MissingRaw(t, TableKeys);
    if m != [] {
      assert m[0] in m;
    }
  }

  /** The reader: its table, filled by parse_file when the object is built. */
  class Config {
    var config: Table

    /** __init__: the six keys, all None, then parse_file over the file (None: the file does not exist). */
    constructor(file: Option<seq<string>>)
      ensures config == RawParse(InitialTable(), file).0.table
    {
      config := InitialTable();
      new;
      var _ := ParseFile(file);
    }

    /**
     * parse_file: fills the table line by line; the loop's error, or else
     * check_config's, or a missing file becomes the printed report.
     */
    method ParseFile(file: Option<seq<string>>) returns (printed: Report)
      modifies this
      ensures config == RawParse(old(config), file).0.table
      ensures printed == RawParse(old(config), file).1
    {
      if file.None? {
        return FileNotFound;
      }
      var lines := file.value;
      ghost var t0 := config;
      var i := 0;
      while i < |lines|
        invariant 0 <= i <= |lines|
        invariant RawRun(t0, lines[..i]) == RawOutcome(config, None)
      {
        RawRunNextLine(t0, lines, i);
        var nv := GetValue(lines[i]);
        if nv.Err? {
          assert RawRun(t0, lines[..i + 1]) == RawOutcome(config, Some(nv.error));
          RawRunFailedLine(t0, lines, i + 1);
          return ConfigReport(nv.error);
        }
        var name := nv.value.0;
        if name !in config {
          assert RawRun(t0, lines[..i + 1]) == RawOutcome(config, Some(UnknownParameter(name)));
          RawRunFailedLine(t0, lines, i + 1);
          return ConfigReport(UnknownParameter(name));
        }
        config := config[name := Some(nv.value.1)];
        i := i + 1;
      }
      assert lines[..i] == lines;
      var missing := CheckRaw(config);
      if missing.Some? {
        return ConfigReport(missing.value);
      }
      return Quiet;
    }
  }
}
