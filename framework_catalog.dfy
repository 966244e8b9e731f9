/** The framework catalogue of the matchers: the description table parsed
    from the summary document (backend), the name and overview read from
    each framework document (frontend), the description lookup with its
    fallbacks, and the candidate list built for the ids the model
    recommends. Reading files is left to the caller: the documents come in
    as strings. */
module FrameworkCatalog {
  import opened Wrappers
  import Seqs
  import Text

  const Suffix: string := " Framework"
  const HeaderName: string := "框架名称"
  const ScenarioPrefix: string := "适用场景："
  const OverviewHeading: string := "## 概述"

  // ---------------------------------------------------------------------
  // The summary table (backend)

  /** A line that opens the table: a row naming the column "框架名称". */
  predicate IsHeader(line: string)
  {
    Text.StartsWith(line, "|") && Text.Contains(line, HeaderName)
  }

  /** A separator row under the header. */
  predicate IsSeparator(line: string)
  {
    Text.StartsWith(line, "|:---") || Text.StartsWith(line, "|---")
  }

  /** A framework name with the suffix " Framework" removed (every
      occurrence, as `str.replace` does). */
  function BaseName(name: string): string
  {
    Text.ReplaceAll(name, Suffix, "")
  }

  /** Records a description under the name, and under the name without
      " Framework" when it ends so. */
  function Store(d: map<string, string>, name: string, desc: string): (r: map<string, string>)
    ensures name in r && r[name] == desc
    ensures Text.EndsWith(name, Suffix) ==> BaseName(name) in r && r[BaseName(name)] == desc
    ensures forall k :: k in r <==> k in d || k == name || (Text.EndsWith(name, Suffix) && k == BaseName(name))
    ensures forall k :: k in d && k != name && k != BaseName(name) ==> r[k] == d[k]
  {
    var d1 := d[name := desc];
    if Text.EndsWith(name, Suffix) then d1[BaseName(name) := desc] else d1
  }

  /** The fields of a table row: the line split on '|', each piece stripped. */
  function Fields(line: string): (f: seq<string>)
    ensures |f| == |Text.Split(line, "|")|
  {
    var parts := Text.Split(line, "|");
    seq(|parts|, k requires 0 <= k < |parts| => Text.Strip(parts[k]))
  }

  /** One table row: the third field is the name, the fourth the scenarios;
      rows missing either and the header row itself add nothing. */
  function AddRow(d: map<string, string>, line: string): (r: map<string, string>)
    ensures r.Keys >= d.Keys
  {
    var f := Fields(line);
    if |f| >= 4 then
      var name := Text.Strip(f[2]);
      var scenarios := Text.Strip(f[3]);
      if name != "" && scenarios != "" && name != HeaderName then
        assert (ScenarioPrefix + scenarios)[..|ScenarioPrefix|] == ScenarioPrefix;
        Store(d, name, ScenarioPrefix + scenarios)
      else d
    else d
  }

  /** The table loop over the stripped lines from `lines` on, with the
      `in_table` flag and the descriptions so far. */
  function TableFrom(lines: seq<string>, inTable: bool, d: map<string, string>): map<string, string>
  {
    if |lines| == 0 then d
    else
      var line := Text.Strip(lines[0]);
      if IsHeader(line) then TableFrom(lines[1..], true, d)
      else if IsSeparator(line) then TableFrom(lines[1..], inTable, d)
      else if inTable && Text.StartsWith(line, "---") then d
      else if inTable && Text.StartsWith(line, "|") then TableFrom(lines[1..], true, AddRow(d, line))
      else TableFrom(lines[1..], inTable, d)
  }

  /** `_load_frameworks_descriptions` of the backend matcher. */
  function Table(summary: string): map<string, string>
  {
    TableFrom(Text.Split(summary, "\n"), false, map[])
  }

  /** Every description starts with "适用场景：". */
  predicate Prefixed(d: map<string, string>)
  {
    forall k :: k in d ==> Text.StartsWith(d[k], ScenarioPrefix)
  }

  /** A row adds only descriptions with the prefix. */
  lemma AddRowPrefixed(d: map<string, string>, line: string)
    requires Prefixed(d)
    ensures Prefixed(AddRow(d, line))
  {
    var f := Fields(line);
    if |f| >= 4 {
      var name := Text.Strip(f[2]);
      var scenarios := Text.Strip(f[3]);
      if name != "" && scenarios != "" && name != HeaderName {
        StorePrefixed(d, name, ScenarioPrefix + scenarios);
      }
    }
  }

  /** Storing a description with the prefix keeps every description
      prefixed. */
  lemma StorePrefixed(d: map<string, string>, name: string, desc: string)
    requires Prefixed(d) && Text.StartsWith(desc, ScenarioPrefix)
    ensures Prefixed(Store(d, name, desc))
  {
  }

  /** Every description in the table starts with "适用场景：". */
  lemma {:induction false} TableValues(lines: seq<string>, inTable: bool, d: map<string, string>)
    requires Prefixed(d)
    ensures Prefixed(TableFrom(lines, inTable, d))
  {
    if |lines| > 0 {
      var line := Text.Strip(lines[0]);
      if IsHeader(line) {
        TableValues(lines[1..], true, d);
      } else if IsSeparator(line) {
        TableValues(lines[1..], inTable, d);
      } else if inTable && Text.StartsWith(line, "---") {
      } else if inTable && Text.StartsWith(line, "|") {
        AddRowPrefixed(d, line);
        TableValues(lines[1..], true, AddRow(d, line));
      } else {
        TableValues(lines[1..], inTable, d);
      }
    }
  }

  /** Rows before the header row are ignored: while the table has not
      started, lines before the first header change nothing. */
  lemma {:induction false} BeforeHeaderIgnored(lines: seq<string>, d: map<string, string>)
    requires forall k :: 0 <= k < |lines| ==> !IsHeader(Text.Strip(lines[k]))
    ensures TableFrom(lines, false, d) == d
  {
    if |lines| > 0 {
      assert forall k :: 0 <= k < |lines[1..]| ==> lines[1..][k] == lines[k + 1];
      BeforeHeaderIgnored(lines[1..], d);
    }
  }

  /** Nothing after the closing "---" line of the table is read. */
  lemma TableStopsAtRule(lines: seq<string>, rest: seq<string>, d: map<string, string>)
    requires |lines| > 0
    requires var line := Text.Strip(lines[0]); !IsHeader(line) && !IsSeparator(line) && Text.StartsWith(line, "---")
    ensures TableFrom(lines + rest, true, d) == d
  {
    assert (lines + rest)[0] == lines[0];
  }

  /** `_load_frameworks_descriptions` as the `for line in lines` loop with
      its `in_table` flag and the `break` at the closing rule. */
  method LoadFrameworksDescriptions(summary: string) returns (descriptions: map<string, string>)
    ensures descriptions == Table(summary)
    ensures Prefixed(descriptions)
  {
    var lines := Text.Split(summary, "\n");
    descriptions := map[];
    var inTable := false;
    var i := 0;
    while i < |lines|
      invariant 0 <= i <= |lines|
      invariant TableFrom(lines[i..], inTable, descriptions) == Table(summary)
    {
      var line := Text.Strip(lines[i]);
      assert lines[i..][0] == lines[i] && lines[i..][1..] == lines[i + 1..];
      if IsHeader(line) {
        inTable := true;
      } else if IsSeparator(line) {
      } else if inTable && Text.StartsWith(line, "---") {
        break;
      } else if inTable && Text.StartsWith(line, "|") {
        descriptions := AddRow(descriptions, line);
      }
      i := i + 1;
    }
    TableValues(lines, false, map[]);
  }

  // ---------------------------------------------------------------------
  // Framework documents (frontend; the same code is in the backend)

  /** A title line: "# " followed by a name mentioning "Framework". */
  predicate IsTitle(line: string)
  {
    Text.StartsWith(line, "# ") && Text.Contains(line, "Framework")
  }

  /** `_extract_framework_name`: the first title line without its "# "
      markers, stripped; "" when there is none. */
  function FrameworkName(content: string): string
  {
    var lines := Text.Split(content, "\n");
    match Seqs.FindIndex(lines, IsTitle)
    case None => ""
    case Some(i) => Text.Strip(Text.ReplaceAll(lines[i], "# ", ""))
  }

  /** A document that never mentions "Framework" has no name. */
  lemma NoWordNoName(content: string)
    requires !Text.Contains(content, "Framework")
    ensures FrameworkName(content) == ""
  {
    var lines := Text.Split(content, "\n");
    Text.JoinSplit(content, "\n");
    forall k | 0 <= k < |lines| ensures !IsTitle(lines[k]) {
      if IsTitle(lines[k]) {
        var j :| 0 <= j && Text.OccursAt(lines[k], "Framework", j);
        JoinPieceOccurs(lines, "\n", k, "Framework", j);
      }
    }
  }

  /** An occurrence inside one piece is an occurrence in the joined text. */
  lemma {:induction false} JoinPieceOccurs(parts: seq<string>, sep: string, k: nat, pat: string, j: nat)
    requires k < |parts| && Text.OccursAt(parts[k], pat, j)
    ensures Text.Contains(Text.Join(parts, sep), pat)
  {
    var s := Text.Join(parts, sep);
    if |parts| == 1 {
      assert s == parts[0];
      assert Text.OccursAt(s, pat, j);
    } else {
      var tail := Text.Join(parts[1..], sep);
      assert s == parts[0] + sep + tail;
      if k == 0 {
        assert s[j..j + |pat|] == parts[0][j..j + |pat|];
        assert Text.OccursAt(s, pat, j);
      } else {
        JoinPieceOccurs(parts[1..], sep, k - 1, pat, j);
        var m := Text.IndexOf(tail, pat).value;
        var off := |parts[0]| + |sep|;
        assert s[off + m..off + m + |pat|] == tail[m..m + |pat|];
        assert Text.OccursAt(s, pat, off + m);
      }
    }
  }

  /** The loop of `_extract_framework_name` with its early `return`. */
  method ExtractFrameworkName(content: string) returns (name: string)
    ensures name == FrameworkName(content)
  {
    var lines := Text.Split(content, "\n");
    var i := 0;
    while i < |lines|
      invariant 0 <= i <= |lines|
      invariant forall j :: 0 <= j < i ==> !IsTitle(lines[j])
    {
      if IsTitle(lines[i]) {
        FirstTitleName(content, i);
        return Text.Strip(Text.ReplaceAll(lines[i], "# ", ""));
      }
      i := i + 1;
    }
    NoTitleName(content);
    return "";
  }

  /** The first title line gives the name. */
  lemma FirstTitleName(content: string, i: nat)
    requires var lines := Text.Split(content, "\n");
      i < |lines| && IsTitle(lines[i]) && forall j :: 0 <= j < i ==> !IsTitle(lines[j])
    ensures FrameworkName(content) == Text.Strip(Text.ReplaceAll(Text.Split(content, "\n")[i], "# ", ""))
  {
    Seqs.FindIndexAt(Text.Split(content, "\n"), IsTitle, i);
  }

  /** Without a title line there is no name. */
  lemma NoTitleName(content: string)
    requires var lines := Text.Split(content, "\n");
      forall j :: 0 <= j < |lines| ==> !IsTitle(lines[j])
    ensures FrameworkName(content) == ""
  {
    assert Seqs.FindIndex(Text.Split(content, "\n"), IsTitle) == None;
  }

  /** The overview lines from `lines` on: after a line starting
      "## 概述", the non-blank lines stripped, up to the next line starting
      "##". Another "## 概述" line restarts nothing and is skipped. */
  function OverviewFrom(lines: seq<string>, started: bool): (r: seq<string>)
    ensures forall k :: 0 <= k < |r| ==> r[k] != ""
    ensures !started && (forall k :: 0 <= k < |lines| ==> !Text.StartsWith(lines[k], OverviewHeading)) ==> r == []
  {
    if |lines| == 0 then []
    else
      var line := lines[0];
      assert forall k :: 0 <= k < |lines[1..]| ==> lines[1..][k] == lines[k + 1];
      if Text.StartsWith(line, OverviewHeading) then OverviewFrom(lines[1..], true)
      else if started && Text.StartsWith(line, "##") then []
      else if started && Text.Strip(line) != "" then [Text.Strip(line)] + OverviewFrom(lines[1..], true)
      else OverviewFrom(lines[1..], started)
  }

  /** `_extract_overview`: the overview lines joined by single spaces. */
  function Overview(content: string): string
  {
    var parts := OverviewFrom(Text.Split(content, "\n"), false);
    if |parts| == 0 then "" else Text.Join(parts, " ")
  }

  /** Joining non-empty pieces gives a non-empty text. */
  lemma {:induction false} JoinNonEmpty(parts: seq<string>, sep: string)
    requires |parts| > 0 && parts[0] != ""
    ensures Text.Join(parts, sep) != ""
  {
    if |parts| > 1 {
      assert |Text.Join(parts, sep)| >= |parts[0]|;
    }
  }

  /** The overview is empty exactly when the document has no non-blank line
      under its "## 概述" heading (in particular, when it has no such
      heading). */
  lemma OverviewEmpty(content: string)
    ensures Overview(content) == "" <==> OverviewFrom(Text.Split(content, "\n"), false) == []
  {
    var parts := OverviewFrom(Text.Split(content, "\n"), false);
    if |parts| > 0 {
      JoinNonEmpty(parts, " ");
    }
  }

  /** The loop of `_extract_overview` with its `overview_started` flag
      and its `break` at the next heading. */
  method ExtractOverview(content: string) returns (overview: string)
    ensures overview == Overview(content)
  {
    var lines := Text.Split(content, "\n");
    var started := false;
    var acc: seq<string> := [];
    var i := 0;
    while i < |lines|
      invariant 0 <= i <= |lines|
      invariant acc + OverviewFrom(lines[i..], started) == OverviewFrom(lines, false)
    {
      var line := lines[i];
      assert lines[i..][0] == line && lines[i..][1..] == lines[i + 1..];
      if Text.StartsWith(line, OverviewHeading) {
        started := true;
      } else if started {
        if Text.StartsWith(line, "##") {
          assert OverviewFrom(lines[i..], started) == [];
          break;
        }
        if Text.Strip(line) != "" {
          acc := acc + [Text.Strip(line)];
        }
      }
      i := i + 1;
    }
    assert i == |lines| ==> lines[i..] == [];
    assert acc == OverviewFrom(lines, false);
    overview := if |acc| == 0 then "" else Text.Join(acc, " ");
  }

  /** The name and the overview of one framework document. */
  function Entry(doc: string): (string, string)
  {
    (FrameworkName(doc), Overview(doc))
  }

  /** The name and the overview of each framework document. */
  function Extracted(docs: seq<string>): (e: seq<(string, string)>)
    ensures |e| == |docs|
    ensures forall i :: 0 <= i < |docs| ==> e[i] == Entry(docs[i])
    decreases |docs|
  {
    if |docs| == 0 then []
    else
      var n := |docs| - 1;
      var init := Extracted(docs[..n]);
      assert forall i :: 0 <= i < n ==> docs[..n][i] == docs[i];
      init + [Entry(docs[n])]
  }

  /** The description map built from (name, overview) pairs in order: a
      pair counts only when both are non-empty; a later pair with the same
      name wins. */
  function Described(entries: seq<(string, string)>): (d: map<string, string>)
    ensures forall k :: k in d ==> k != "" && d[k] != ""
  {
    if |entries| == 0 then map[]
    else
      var d := Described(entries[..|entries| - 1]);
      var (name, overview) := entries[|entries| - 1];
      if name != "" && overview != "" then d[name := overview] else d
  }

  /** The description map of the frontend matcher over the framework
      documents, in the order they are listed. */
  function Descriptions(docs: seq<string>): map<string, string>
  {
    Described(Extracted(docs))
  }

  /** A name is in the map exactly when some pair has that name and a
      non-empty overview. */
  lemma {:induction false} DescribedKeys(entries: seq<(string, string)>, k: string)
    ensures k in Described(entries) <==> exists i :: 0 <= i < |entries| && entries[i].0 == k && k != "" && entries[i].1 != ""
  {
    if |entries| > 0 {
      var init := entries[..|entries| - 1];
      DescribedKeys(init, k);
      assert forall i :: 0 <= i < |init| ==> init[i] == entries[i];
    }
  }

  /** A name is described exactly when some document has that name and a
      non-empty overview. */
  lemma DescriptionsKeys(docs: seq<string>, k: string)
    ensures k in Descriptions(docs) <==> exists i :: 0 <= i < |docs| && FrameworkName(docs[i]) == k && k != "" && Overview(docs[i]) != ""
  {
    var e := Extracted(docs);
    DescribedKeys(e, k);
    if k in Descriptions(docs) {
      var i :| 0 <= i < |e| && e[i].0 == k && k != "" && e[i].1 != "";
      assert FrameworkName(docs[i]) == k && Overview(docs[i]) != "";
    }
  }

  /** The description kept for a name is the overview of the last pair with
      that name. */
  lemma {:induction false} DescribedLastWins(entries: seq<(string, string)>, i: nat)
    requires i < |entries| && entries[i].0 != "" && entries[i].1 != ""
    requires forall j :: i < j < |entries| ==> entries[j].0 != entries[i].0
    ensures entries[i].0 in Described(entries) && Described(entries)[entries[i].0] == entries[i].1
  {
    var init := entries[..|entries| - 1];
    if i < |entries| - 1 {
      assert init[i] == entries[i];
      DescribedLastWins(init, i);
    }
  }

  /** One more pair: it is stored when both parts are non-empty. */
  lemma DescribedSnoc(entries: seq<(string, string)>, x: (string, string))
    ensures Described(entries + [x])
         == if x.0 != "" && x.1 != "" then Described(entries)[x.0 := x.1] else Described(entries)
  {
    assert (entries + [x])[..|entries|] == entries;
  }

  /** One more document: its name and overview are stored when both are
      non-empty. */
  lemma DescriptionsSnoc(docs: seq<string>, i: nat, name: string, overview: string)
    requires i < |docs| && name == FrameworkName(docs[i]) && overview == Overview(docs[i])
    ensures Descriptions(docs[..i + 1])
         == if name != "" && overview != "" then Descriptions(docs[..i])[name := overview] else Descriptions(docs[..i])
  {
    assert docs[..i + 1][..i] == docs[..i];
    assert Entry(docs[i]) == (name, overview);
    DescribedSnoc(Extracted(docs[..i]), (name, overview));
  }

  /** The file loop of the frontend `_load_frameworks_descriptions`. */
  method LoadDocumentDescriptions(docs: seq<string>) returns (descriptions: map<string, string>)
    ensures descriptions == Descriptions(docs)
  {
    descriptions := map[];
    var i := 0;
    while i < |docs|
      invariant 0 <= i <= |docs|
      invariant descriptions == Descriptions(docs[..i])
    {
      var name := ExtractFrameworkName(docs[i]);
      var overview := ExtractOverview(docs[i]);
      DescriptionsSnoc(docs, i, name, overview);
      if name != "" && overview != "" {
        descriptions := descriptions[name := overview];
      }
      i := i + 1;
    }
    assert docs[..i] == docs;
  }

  // ---------------------------------------------------------------------
  // Lookup and candidates (both matchers)

  /** `d.get(k)` read as Python truthiness: a missing key and an empty
      description are both "not found". */
  function Found(d: map<string, string>, k: string): Option<string>
  {
    if k in d && d[k] != "" then Some(d[k]) else None
  }

  /** The text used when no description is known. */
  function DefaultDescription(id: string): string
  {
    "适用于用户需求的 " + id + " 框架"
  }

  /** The description of a candidate: the id itself, then the id with
      " Framework" added, then without it, then the default text. */
  function Lookup(d: map<string, string>, id: string): (r: string)
    ensures r != ""
    ensures Found(d, id).Some? ==> r == d[id]
    ensures Found(d, id).None? && Found(d, id + Suffix).Some? ==> r == d[id + Suffix]
    ensures (Found(d, id).None? && Found(d, id + Suffix).None? && Text.EndsWith(id, Suffix)
             && Found(d, BaseName(id)).Some?) ==> r == d[BaseName(id)]
    ensures (Found(d, id).None? && Found(d, id + Suffix).None?
             && (!Text.EndsWith(id, Suffix) || Found(d, BaseName(id)).None?)) ==> r == DefaultDescription(id)
    ensures r == DefaultDescription(id) || exists k :: k in d && d[k] == r
  {
    match Found(d, id)
    case Some(v) => v
    case None =>
      match Found(d, id + Suffix)
      case Some(v) => v
      case None =>
        if Text.EndsWith(id, Suffix) && Found(d, BaseName(id)).Some? then d[BaseName(id)]
        else DefaultDescription(id)
  }

  /** With no description under any of the three names the default text is
      used. */
  lemma LookupDefault(d: map<string, string>, id: string)
    requires Found(d, id).None? && Found(d, id + Suffix).None?
    requires !Text.EndsWith(id, Suffix) || Found(d, BaseName(id)).None?
    ensures Lookup(d, id) == DefaultDescription(id)
  {
  }

  /** Removing the suffix from a name that ends with it and holds it
      nowhere else leaves the name's stem. */
  lemma BaseNameOfSuffixed(stem: string)
    requires forall j :: 0 <= j < |stem| ==> !Text.OccursAt(stem + Suffix, Suffix, j)
    ensures BaseName(stem + Suffix) == stem
  {
    var s := stem + Suffix;
    assert s[|stem|..|stem| + |Suffix|] == Suffix;
    Text.SplitFirst(s, Suffix, |stem|);
    assert s[|stem| + |Suffix|..] == "";
    Text.SplitAbsent("", Suffix);
    assert Text.Split(s, Suffix) == [stem, ""];
    assert Text.Join([stem, ""], "") == stem + "" + Text.Join([""], "");
  }

  /** A table row for "X Framework" makes both "X" and "X Framework" find
      its description. */
  lemma StoredUnderBothNames(d: map<string, string>, stem: string, desc: string)
    requires desc != ""
    requires forall j :: 0 <= j < |stem| ==> !Text.OccursAt(stem + Suffix, Suffix, j)
    ensures Lookup(Store(d, stem + Suffix, desc), stem) == desc
    ensures Lookup(Store(d, stem + Suffix, desc), stem + Suffix) == desc
  {
    BaseNameOfSuffixed(stem);
    assert Text.EndsWith(stem + Suffix, Suffix) by {
      assert (stem + Suffix)[|stem|..] == Suffix;
    }
  }

  /** A candidate; the float `match_score` is not modelled. */
  datatype Candidate = Candidate(id: string, name: string, description: string, reasoning: string)

  function Reasoning(id: string): string
  {
    "基于用户输入分析，" + id + " 最适合此场景"
  }

  /** The candidate built for one recommended id. */
  function CandidateFor(d: map<string, string>, id: string): (c: Candidate)
    ensures c.id == id && c.name == id && c.description != ""
  {
    Candidate(id, id, Lookup(d, id), Reasoning(id))
  }

  /** The candidate returned when matching fails: RACEF, described by the
      "RACEF Framework" entry even when it is empty, else a fixed text. */
  function FallbackCandidate(d: map<string, string>): (c: Candidate)
    ensures c.id == "RACEF" && c.name == "RACEF Framework"
    ensures "RACEF Framework" in d ==> c.description == d["RACEF Framework"]
  {
    var desc := if "RACEF Framework" in d then d["RACEF Framework"] else "通用的头脑风暴和创意生成框架";
    Candidate("RACEF", "RACEF Framework", desc, "默认推荐框架")
  }

  /** `match_frameworks`: one candidate per recommended id, in order; the
      single fallback candidate when the intent analysis failed (`None`). */
  method MatchFrameworks(d: map<string, string>, frameworkIds: Option<seq<string>>) returns (candidates: seq<Candidate>)
    ensures frameworkIds.None? ==> candidates == [FallbackCandidate(d)]
    ensures frameworkIds.Some? ==> |candidates| == |frameworkIds.value|
    ensures frameworkIds.Some? ==> forall k :: 0 <= k < |candidates| ==> candidates[k] == CandidateFor(d, frameworkIds.value[k])
  {
    if frameworkIds.None? {
      return [FallbackCandidate(d)];
    }
    var ids := frameworkIds.value;
    candidates := [];
    var i := 0;
    while i < |ids|
      invariant 0 <= i <= |ids|
      invariant |candidates| == i
      invariant forall k :: 0 <= k < i ==> candidates[k] == CandidateFor(d, ids[k])
    {
      var description := Lookup(d, ids[i]);
      candidates := candidates + [Candidate(ids[i], ids[i], description, Reasoning(ids[i]))];
      i := i + 1;
    }
  }
}
