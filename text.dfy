/**
 * The Python string operations the configuration parsers rely on, on
 * strings as sequences of characters: strip, count, split, replace of a
 * character by nothing, startswith, capitalize and int().
 */
module PyText {
  import opened Wrappers

  /** str.isspace for one character: the Unicode whitespace Python strips. */
  predicate IsSpace(c: char)
  {
    var n := c as int;
    (9 <= n <= 13) || (28 <= n <= 32) || n == 0x85 || n == 0xA0 || n == 0x1680
    || (0x2000 <= n <= 0x200A) || n == 0x2028 || n == 0x2029 || n == 0x202F
    || n == 0x205F || n == 0x3000
  }

  /** str.lstrip(): the longest whitespace prefix removed. */
  function LStrip(s: string): (r: string)
    ensures |r| <= |s| && r == s[|s| - |r|..]
    ensures r == [] || !IsSpace(r[0])
    ensures forall i :: 0 <= i < |s| - |r| ==> IsSpace(s[i])
  {
    if s != [] && IsSpace(s[0]) then
      var r := LStrip(s[1..]);
      assert forall i :: 1 <= i < |s| ==> s[i] == s[1..][i - 1];
      r
    else s
  }

  /** str.rstrip(): the longest whitespace suffix removed. */
  function RStrip(s: string): (r: string)
    ensures |r| <= |s| && r == s[..|r|]
    ensures r == [] || !IsSpace(r[|r| - 1])
    ensures forall i :: |r| <= i < |s| ==> IsSpace(s[i])
  {
    if s != [] && IsSpace(s[|s| - 1]) then
      var r := RStrip(s[..|s| - 1]);
      assert forall i :: 0 <= i < |s| - 1 ==> s[i] == s[..|s| - 1][i];
      r
    else s
  }

  /** str.strip(). */
  function Strip(s: string): string
  {
    RStrip(LStrip(s))
  }

  /**
   * strip() keeps one contiguous slice s[a..b]: everything before a and from
   * b on is whitespace, and the slice neither starts nor ends with whitespace.
   */
  lemma StripSlice(s: string) returns (a: nat, b: nat)
    ensures a <= b <= |s| && Strip(s) == s[a..b]
    ensures forall i :: 0 <= i < a ==> IsSpace(s[i])
    ensures forall i :: b <= i < |s| ==> IsSpace(s[i])
    ensures a < b ==> !IsSpace(s[a]) && !IsSpace(s[b - 1])
  {
    var l := LStrip(s);
    var r := RStrip(l);
    a := |s| - |l|;
    b := a + |r|;
    assert s[a..b] == l[..|r|];
    forall i | b <= i < |s|
      ensures IsSpace(s[i])
    {
      assert s[i] == l[i - a];
    }
  }

  /** strip() is idempotent. */
  lemma StripIdempotent(s: string)
    ensures Strip(Strip(s)) == Strip(s)
  {
    var t := Strip(s);
    if t != [] {
      assert !IsSpace(t[0]);
      assert LStrip(t) == t;
      assert RStrip(t) == t;
    }
  }

  /** str.count(c) for a one-character argument. */
  function CountChar(s: string, c: char): nat
  {
    if s == [] then 0 else (if s[0] == c then 1 else 0) + CountChar(s[1..], c)
  }

  lemma {:induction false} CountCharAppend(a: string, b: string, c: char)
    ensures CountChar(a + b, c) == CountChar(a, c) + CountChar(b, c)
  {
    if a == [] {
      assert a + b == b;
    } else {
      assert (a + b)[1..] == a[1..] + b;
      CountCharAppend(a[1..], b, c);
    }
  }

  lemma {:induction false} CountCharZero(s: string, c: char)
    ensures CountChar(s, c) == 0 <==> c !in s
  {
    if s != [] {
      CountCharZero(s[1..], c);
      assert s == [s[0]] + s[1..];
    }
  }

  /** str.startswith(p). */
  predicate StartsWith(s: string, p: string)
  {
    |p| <= |s| && s[..|p|] == p
  }

  /** sep occurs in s at position k. */
  predicate Occurs(s: string, sep: string, k: int)
  {
    0 <= k && k + |sep| <= |s| && s[k..k + |sep|] == sep
  }

  /** The first occurrence of sep in s at or after from. */
  function FindFrom(s: string, sep: string, from: nat): (r: Option<nat>)
    ensures r.Some? ==> from <= r.value && Occurs(s, sep, r.value)
    decreases |s| - from
  {
    if from + |sep| > |s| then None
    else if Occurs(s, sep, from) then Some(from)
    else FindFrom(s, sep, from + 1)
  }

  /** The occurrence found is the first one at or after from; when none is found there is none. */
  lemma {:induction false} FindFromFirst(s: string, sep: string, from: nat)
    ensures FindFrom(s, sep, from).Some? ==> forall j :: from <= j < FindFrom(s, sep, from).value ==> !Occurs(s, sep, j)
    ensures FindFrom(s, sep, from).None? ==> forall j :: from <= j ==> !Occurs(s, sep, j)
    decreases |s| - from
  {
    if from + |sep| <= |s| && s[from..from + |sep|] != sep {
      FindFromFirst(s, sep, from + 1);
    }
  }

  /** str.split(sep) for a non-empty sep: cut at each occurrence, left to right, without overlap. */
  function Split(s: string, sep: string): (parts: seq<string>)
    requires |sep| > 0
    ensures |parts| >= 1
    decreases |s|
  {
    match FindFrom(s, sep, 0)
    case None => [s]
    case Some(k) => [s[..k]] + Split(s[k + |sep|..], sep)
  }

  /** sep.join(parts). */
  function Join(parts: seq<string>, sep: string): string
  {
    if |parts| == 0 then ""
    else if |parts| == 1 then parts[0]
    else parts[0] + sep + Join(parts[1..], sep)
  }

  lemma Slice3<T>(s: seq<T>, a: nat, b: nat)
    requires a <= b <= |s|
    ensures s == s[..a] + s[a..b] + s[b..]
  {
    assert s[..a] + s[a..b] == s[..b];
  }

  /** One step of split: the text before the first separator, then the split of what follows it. */
  lemma SplitStep(s: string, sep: string, k: nat)
    requires |sep| > 0 && FindFrom(s, sep, 0) == Some(k)
    ensures Split(s, sep) == [s[..k]] + Split(s[k + |sep|..], sep)
  {
    var rest := s[k + |sep|..];
    assert Split(s, sep) == [s[..k]] + Split(rest, sep);
  }

  /** Joining the parts with the separator gives the string back. */
  lemma {:induction false} JoinSplit(s: string, sep: string)
    requires |sep| > 0
    ensures Join(Split(s, sep), sep) == s
    decreases |s|
  {
    var f := FindFrom(s, sep, 0);
    if f.Some? {
      var k := f.value;
      var rest := s[k + |sep|..];
      var tail := Split(rest, sep);
      SplitStep(s, sep, k);
      JoinSplit(rest, sep);
      JoinCons(s[..k], tail, sep);
      assert s[k..k + |sep|] == sep;
      Slice3(s, k, k + |sep|);
    }
  }

  /** Joining a first part in front of a non-empty list puts one separator between them. */
  lemma JoinCons(p: string, tail: seq<string>, sep: string)
    requires |tail| >= 1
    ensures Join([p] + tail, sep) == p + sep + Join(tail, sep)
  {
    assert ([p] + tail)[1..] == tail;
  }

  /** An occurrence inside the prefix s[..k] is an occurrence in s; so none in s before k means none in the prefix. */
  lemma NoOccursPrefix(s: string, sep: string, k: nat)
    requires |sep| > 0 && k <= |s|
    requires forall j :: 0 <= j < k ==> !Occurs(s, sep, j)
    ensures forall j :: !Occurs(s[..k], sep, j)
  {
    forall j
      ensures !Occurs(s[..k], sep, j)
    {
      if 0 <= j && j + |sep| <= k {
        assert s[..k][j..j + |sep|] == s[j..j + |sep|];
        assert !Occurs(s, sep, j);
      }
    }
  }

  /** No part contains the separator. */
  lemma {:induction false} SplitPartsFree(s: string, sep: string)
    requires |sep| > 0
    ensures forall i, j :: 0 <= i < |Split(s, sep)| ==> !Occurs(Split(s, sep)[i], sep, j)
    decreases |s|
  {
    FindFromFirst(s, sep, 0);
    match FindFrom(s, sep, 0)
    case None =>
    case Some(k) =>
      var rest := s[k + |sep|..];
      SplitPartsFree(rest, sep);
      NoOccursPrefix(s, sep, k);
      SplitStep(s, sep, k);
      var parts := Split(s, sep);
      forall i, j | 0 <= i < |parts|
        ensures !Occurs(parts[i], sep, j)
      {
        if i > 0 {
          assert parts[i] == Split(rest, sep)[i - 1];
        }
      }
  }

  /** No occurrence of the one-character separator [c] before k means no c in the first k characters. */
  lemma NoOccurrenceBefore(t: string, c: char, k: nat)
    requires k <= |t|
    requires forall j :: 0 <= j < k ==> !Occurs(t, [c], j)
    ensures c !in t[..k]
  {
    forall j | 0 <= j < k
      ensures t[..k][j] != c
    {
      assert t[j..j + 1] == [t[j]];
      assert !Occurs(t, [c], j);
    }
  }

  /** For a one-character separator there is one part more than there are separators. */
  lemma {:induction false} SplitCharCount(s: string, c: char)
    ensures |Split(s, [c])| == CountChar(s, c) + 1
    decreases |s|
  {
    FindFromFirst(s, [c], 0);
    match FindFrom(s, [c], 0)
    case None =>
      NoOccurrenceBefore(s, c, |s|);
      assert s[..|s|] == s;
      CountCharZero(s, c);
    case Some(k) =>
      var rest := s[k + 1..];
      SplitCharCount(rest, c);
      SplitStep(s, [c], k);
      assert s == s[..k] + [c] + rest by {
        assert s[k..k + 1] == [c];
      }
      NoOccurrenceBefore(s, c, k);
      CountCharZero(s[..k], c);
      CountCharAppend(s[..k] + [c], rest, c);
      CountCharAppend(s[..k], [c], c);
      assert CountChar([c], c) == 1 by {
        assert [c][1..] == [];
      }
  }

  /**
   * A line with exactly one c splits into the text before it and the text
   * after it, neither containing c.
   */
  lemma SplitOnce(s: string, c: char)
    requires CountChar(s, c) == 1
    ensures |Split(s, [c])| == 2
    ensures Split(s, [c])[0] + [c] + Split(s, [c])[1] == s
    ensures c !in Split(s, [c])[0] && c !in Split(s, [c])[1]
  {
    SplitCharCount(s, c);
    JoinSplit(s, [c]);
    var parts := Split(s, [c]);
    assert parts[1..] == [parts[1]];
    SplitPartsFree(s, [c]);
    forall i | 0 <= i < 2
      ensures c !in parts[i]
    {
      NoOccurrenceBefore(parts[i], c, |parts[i]|);
      assert parts[i][..|parts[i]|] == parts[i];
    }
  }

  /** str.replace(c, "") for one character c. */
  function RemoveChar(s: string, c: char): (r: string)
    ensures c !in r
    ensures |r| + CountChar(s, c) == |s|
  {
    if s == [] then []
    else (if s[0] == c then [] else [s[0]]) + RemoveChar(s[1..], c)
  }

  /** Removing a character that does not occur changes nothing. */
  lemma {:induction false} RemoveAbsent(s: string, c: char)
    requires c !in s
    ensures RemoveChar(s, c) == s
  {
    if s != [] {
      RemoveAbsent(s[1..], c);
      assert s == [s[0]] + s[1..];
    }
  }

  // ---------------------------------------------------------------------
  // Letter case, on ASCII letters only.

  function Upper(c: char): char
  {
    if 'a' <= c <= 'z' then (c as int - 32) as char else c
  }

  function Lower(c: char): char
  {
    if 'A' <= c <= 'Z' then (c as int + 32) as char else c
  }

  function LowerAll(s: string): (r: string)
    ensures |r| == |s| && forall i :: 0 <= i < |s| ==> r[i] == Lower(s[i])
  {
    if s == [] then [] else [Lower(s[0])] + LowerAll(s[1..])
  }

  /** str.capitalize(): first character upper case, the rest lower case. */
  function Capitalize(s: string): (r: string)
    ensures |r| == |s|
    ensures s != [] ==> r[0] == Upper(s[0]) && forall i :: 1 <= i < |s| ==> r[i] == Lower(s[i])
  {
    if s == [] then [] else [Upper(s[0])] + LowerAll(s[1..])
  }

  /** For an upper-case letter W, upper-casing x gives W exactly when lower-casing x gives W's lower case. */
  lemma UpperMatches(x: char, w: char)
    requires 'A' <= w <= 'Z'
    ensures Upper(x) == w <==> Lower(x) == Lower(w)
  {
  }

  /** capitalize() gives w (a capitalised word) exactly for the spellings of w in any letter case. */
  lemma CapitalizeMatches(s: string, w: string)
    requires w != [] && 'A' <= w[0] <= 'Z' && forall i :: 1 <= i < |w| ==> 'a' <= w[i] <= 'z'
    ensures Capitalize(s) == w <==> LowerAll(s) == LowerAll(w)
  {
    if |s| == |w| {
      var c := Capitalize(s);
      var ls := LowerAll(s);
      var lw := LowerAll(w);
      forall i | 0 <= i < |s|
        ensures c[i] == w[i] <==> ls[i] == lw[i]
      {
        if i == 0 {
          UpperMatches(s[0], w[0]);
        }
      }
      if c == w {
        assert ls == lw;
      }
      if ls == lw {
        assert c == w;
      }
    }
  }

  // ---------------------------------------------------------------------
  // int() on a string, decimal digits.

  predicate IsDigit(c: char)
  {
    '0' <= c <= '9'
  }

  /** Underscores only between digits, never doubled, never first or last. */
  predicate WellGrouped(s: string)
  {
    s != [] && IsDigit(s[0]) && IsDigit(s[|s| - 1])
    && (forall i :: 0 <= i < |s| ==> IsDigit(s[i]) || s[i] == '_')
    && (forall i :: 0 <= i < |s| - 1 ==> !(s[i] == '_' && s[i + 1] == '_'))
  }

  /** The number the digits spell, underscores skipped. */
  function DigitsValue(s: string): nat
  {
    if s == [] then 0
    else if IsDigit(s[|s| - 1]) then DigitsValue(s[..|s| - 1]) * 10 + (s[|s| - 1] as int - '0' as int)
    else DigitsValue(s[..|s| - 1])
  }

  /** int(s) for a str: surrounding whitespace, an optional sign, grouped decimal digits; None where Python raises ValueError. */
  function ParseInt(s: string): Option<int>
  {
    var t := Strip(s);
    if t != [] && (t[0] == '+' || t[0] == '-') then
      (if WellGrouped(t[1..]) then Some(if t[0] == '-' then -(DigitsValue(t[1..]) as int) else DigitsValue(t[1..]))
       else None)
    else if WellGrouped(t) then Some(DigitsValue(t))
    else None
  }

  /** str(n) for a natural number. */
  function NatToString(n: nat): (r: string)
    ensures r != [] && forall i :: 0 <= i < |r| ==> IsDigit(r[i])
  {
    if n < 10 then [('0' as int + n) as char]
    else NatToString(n / 10) + [('0' as int + n % 10) as char]
  }

  /** str(i) for an integer. */
  function IntToString(i: int): string
  {
    if i < 0 then "-" + NatToString(-i) else NatToString(i)
  }

  lemma {:induction false} NatToStringValue(n: nat)
    ensures DigitsValue(NatToString(n)) == n
  {
    if n >= 10 {
      NatToStringValue(n / 10);
      var s := NatToString(n);
      assert s[..|s| - 1] == NatToString(n / 10);
    }
  }

  lemma NoSpaceStrip(s: string)
    requires forall i :: 0 <= i < |s| ==> !IsSpace(s[i])
    ensures Strip(s) == s
  {
  }

  lemma DigitsGrouped(d: string)
    requires d != [] && forall i :: 0 <= i < |d| ==> IsDigit(d[i])
    ensures WellGrouped(d)
  {
  }

  /** int() of a plain digit string is the number it spells. */
  lemma ParseIntUnsigned(d: string)
    requires d != [] && forall i :: 0 <= i < |d| ==> IsDigit(d[i])
    ensures ParseInt(d) == Some(DigitsValue(d) as int)
  {
    NoSpaceStrip(d);
    DigitsGrouped(d);
    assert d[0] != '+' && d[0] != '-';
  }

  /** int() of a stripped text made of a minus sign and well-grouped digits. */
  lemma ParseIntSigned(t: string, d: string)
    requires Strip(t) == t && t != [] && t[0] == '-' && t[1..] == d && WellGrouped(d)
    ensures ParseInt(t) == Some(-(DigitsValue(d) as int))
  {
  }

  /** int() of a minus sign followed by digits is the negated number. */
  lemma ParseIntNegative(d: string)
    requires d != [] && forall i :: 0 <= i < |d| ==> IsDigit(d[i])
    ensures ParseInt("-" + d) == Some(-(DigitsValue(d) as int))
  {
    var s := "-" + d;
    forall k | 0 <= k < |s|
      ensures !IsSpace(s[k])
    {
      if k > 0 {
        assert s[k] == d[k - 1];
      }
    }
    NoSpaceStrip(s);
    DigitsGrouped(d);
    assert s[1..] == d;
    ParseIntSigned(s, d);
  }

  /** int(str(i)) == i. */
  lemma ParseIntRoundTrip(i: int)
    ensures ParseInt(IntToString(i)) == Some(i)
  {
    var n: nat := if i < 0 then -i else i;
    NatToStringValue(n);
    if i < 0 {
      ParseIntNegative(NatToString(n));
    } else {
      ParseIntUnsigned(NatToString(n));
    }
  }

}
