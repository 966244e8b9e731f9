/** Rows of the framework summary table, "| num | name | scenarios |", and
    what the table parser makes of one. The built-in fallback summary of
    the backend matcher consists of such rows. */
module TableRows {
  import Text
  import opened FrameworkCatalog

  /** A cell's text between its single spaces. */
  function Pad(c: string): string
  {
    " " + c + " "
  }

  /** The pieces of a table row between its '|' characters. */
  function RowParts(num: string, name: string, scenarios: string): seq<string>
  {
    ["", Pad(num), Pad(name), Pad(scenarios), ""]
  }

  /** A table row with its three cells: "| num | name | scenarios |". */
  function Row(num: string, name: string, scenarios: string): string
  {
    Text.Join(RowParts(num, name, scenarios), "|")
  }

  /** A cell that the row lemmas accept: non-empty, without '|' or line
      breaks, not holding the header word, and not starting or ending with
      whitespace. */
  predicate Cell(c: string)
  {
    |c| > 0 && !Text.IsSpace(c[0]) && !Text.IsSpace(c[|c| - 1])
    && '|' !in c && '\n' !in c && !Text.Contains(c, HeaderName)
  }

  /** Padding a cell does not make the header word appear. */
  lemma PadAbsent(c: string)
    requires !Text.Contains(c, HeaderName)
    ensures !Text.Contains(Pad(c), HeaderName)
  {
    assert !Text.Contains("", HeaderName);
    Text.AbsentAcross(c, ' ', "", HeaderName);
    assert c + [' '] + "" == c + " ";
    Text.AbsentAcross("", ' ', c + " ", HeaderName);
    assert "" + [' '] + (c + " ") == Pad(c);
  }

  /** A row and its ends; the header word occurs in it only where a cell
      holds it. */
  lemma {:induction false} RowShape(num: string, name: string, scenarios: string)
    requires Cell(num) && Cell(name) && Cell(scenarios)
    ensures var line := Row(num, name, scenarios);
      |line| > 2 && line[0] == '|' && line[1] == ' ' && line[|line| - 1] == '|'
      && '\n' !in line && !Text.Contains(line, HeaderName)
  {
    var p := RowParts(num, name, scenarios);
    var line := Row(num, name, scenarios);
    var j3 := Text.Join(p[3..], "|");
    var j2 := Text.Join(p[2..], "|");
    var j1 := Text.Join(p[1..], "|");
    assert Text.Join(p[4..], "|") == "";
    assert j3 == p[3] + "|" + "";
    assert j2 == p[2] + "|" + j3;
    assert j1 == p[1] + "|" + j2;
    assert line == "" + "|" + j1;
    assert j1[0] == ' ';
    assert line[|line| - 1] == j3[|j3| - 1];
    Text.JoinAbsent(p, "|", '\n');
    assert !Text.Contains(line, HeaderName) by {
      PadAbsent(num);
      PadAbsent(name);
      PadAbsent(scenarios);
      assert !Text.Contains("", HeaderName);
      Text.AbsentAcross(p[3], '|', "", HeaderName);
      Text.AbsentAcross(p[2], '|', j3, HeaderName);
      Text.AbsentAcross(p[1], '|', j2, HeaderName);
      Text.AbsentAcross("", '|', j1, HeaderName);
    }
  }

  /** A row splits on '|' into its cells, with empty ends. */
  lemma {:induction false} RowFields(num: string, name: string, scenarios: string)
    requires Cell(num) && Cell(name) && Cell(scenarios)
    ensures var f := Fields(Row(num, name, scenarios));
      |f| == 5 && f[0] == "" && f[1] == num && f[2] == name && f[3] == scenarios && f[4] == ""
  {
    var p := RowParts(num, name, scenarios);
    assert Text.Split(Row(num, name, scenarios), "|") == p by {
      assert forall k :: 0 <= k < |p| ==> '|' !in p[k];
      Text.SplitJoinChar(p, '|');
    }
    var f := Fields(Row(num, name, scenarios));
    assert |f| == 5 && forall k :: 0 <= k < 5 ==> f[k] == Text.Strip(p[k]);
    assert f[1] == num by { Text.StripPadding(" ", num, " ", Text.Whitespace); }
    assert f[2] == name by { Text.StripPadding(" ", name, " ", Text.Whitespace); }
    assert f[3] == scenarios by { Text.StripPadding(" ", scenarios, " ", Text.Whitespace); }
    assert f[0] == "" && f[4] == "" by {
      assert p[0] == "" && p[4] == "";
      assert |Text.Strip("")| == 0;
    }
  }

  /** The cases of a row with at least four fields. */
  lemma {:induction false} AddRowCases(d: map<string, string>, line: string)
    ensures var f := Fields(line);
      |f| >= 4 ==> AddRow(d, line) == (if Text.Strip(f[2]) != "" && Text.Strip(f[3]) != "" && Text.Strip(f[2]) != HeaderName
                                        then Store(d, Text.Strip(f[2]), ScenarioPrefix + Text.Strip(f[3])) else d)
  {
  }

  /** A row stores its name with the prefixed scenarios. */
  lemma {:induction false} AddRowOf(num: string, name: string, scenarios: string, d: map<string, string>)
    requires Cell(num) && Cell(name) && Cell(scenarios)
    ensures AddRow(d, Row(num, name, scenarios)) == Store(d, name, ScenarioPrefix + scenarios)
  {
    assert name != HeaderName by {
      assert Text.OccursAt(HeaderName, HeaderName, 0);
    }
    var f := Fields(Row(num, name, scenarios));
    RowFields(num, name, scenarios);
    Text.StripPadding("", name, "", Text.Whitespace);
    Text.StripPadding("", scenarios, "", Text.Whitespace);
    assert "" + name + "" == name && "" + scenarios + "" == scenarios;
    assert Text.Strip(f[2]) == name && Text.Strip(f[3]) == scenarios;
    AddRowCases(d, Row(num, name, scenarios));
  }

  /** Stripping leaves a row as it is. */
  lemma {:induction false} RowStripped(num: string, name: string, scenarios: string)
    requires Cell(num) && Cell(name) && Cell(scenarios)
    ensures Text.Strip(Row(num, name, scenarios)) == Row(num, name, scenarios)
  {
    var line := Row(num, name, scenarios);
    RowShape(num, name, scenarios);
    Text.StripPadding("", line, "", Text.Whitespace);
    assert "" + line + "" == line;
  }

  /** A row is neither a header, a separator nor the closing rule. */
  lemma {:induction false} RowKind(num: string, name: string, scenarios: string)
    requires Cell(num) && Cell(name) && Cell(scenarios)
    ensures var line := Row(num, name, scenarios);
      !IsHeader(line) && !IsSeparator(line) && !Text.StartsWith(line, "---") && Text.StartsWith(line, "|")
  {
    var line := Row(num, name, scenarios);
    RowShape(num, name, scenarios);
    assert line[..1] == "|";
  }

  /** What the parser does with a row inside the table. */
  lemma {:induction false} RowStep(num: string, name: string, scenarios: string, rest: seq<string>, d: map<string, string>)
    requires Cell(num) && Cell(name) && Cell(scenarios)
    ensures TableFrom([Row(num, name, scenarios)] + rest, true, d)
         == TableFrom(rest, true, Store(d, name, ScenarioPrefix + scenarios))
  {
    var line := Row(num, name, scenarios);
    var s := [line] + rest;
    assert s[0] == line && s[1..] == rest;
    RowStripped(num, name, scenarios);
    RowKind(num, name, scenarios);
    AddRowOf(num, name, scenarios, d);
  }
}
