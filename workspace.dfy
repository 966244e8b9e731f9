/** The workspace page: the version list, the output and editor panes, a
    selection of at most two versions that switches the page between the
    editor and the side-by-side comparison, and the version numbering used
    when a version is saved or regenerated. Results of network calls (the
    version the server stored) are passed in as values. */
module Workspace {
  import opened Wrappers
  import Text
  import Seqs
  import opened ClientVersion

  datatype ViewMode = Editor | Comparison

  // ---------------------------------------------------------------------
  // Version numbers and topics

  /** The number proposed for the next version of the current topic: "1.0"
      for a topic without versions; otherwise, from the topic's first
      (newest) version "M.m", "M.(m+1)" for a regeneration and "(M+1).0"
      for a manual save. Both halves go through JavaScript's `Number`. */
  function NextVersionNumber(versions: seq<Version>, topic: string, kind: Kind): (r: string)
    ensures FirstWithTopic(versions, topic).None? ==> r == "1.0"
  {
    match FirstWithTopic(versions, topic)
    case None => "1.0"
    case Some(latest) => NumberAfter(latest.versionNumber, kind)
  }

  /** The number following `versionNumber`, read as "major.minor". */
  function NumberAfter(versionNumber: string, kind: Kind): (r: string)
    ensures kind == Save ==> Text.EndsWith(r, ".0")
  {
    var parts := Text.Split(versionNumber, ".");
    var major := Text.ToNumber(parts[0]);
    // a number without '.' leaves `minor` undefined, and undefined + 1 is NaN
    var minor := if |parts| > 1 then Text.ToNumber(parts[1]) else Text.NaN;
    if kind == Optimize then Text.NumberToString(major) + "." + Text.NumberToString(Text.Succ(minor))
    else Text.NumberToString(Text.Succ(major)) + ".0"
  }

  /** The rendering of version number "M.m". */
  function Dotted(major: nat, minor: nat): string
  {
    Text.NatToString(major) + "." + Text.NatToString(minor)
  }

  /** Splitting a rendered "M.m" on '.' gives back its two halves. */
  lemma SplitDotted(major: nat, minor: nat)
    ensures Text.Split(Dotted(major, minor), ".") == [Text.NatToString(major), Text.NatToString(minor)]
  {
    var m, n := Text.NatToString(major), Text.NatToString(minor);
    assert '.' !in m by {
      forall k | 0 <= k < |m| ensures m[k] != '.' { assert Text.IsDigit(m[k]); }
    }
    assert '.' !in n by {
      forall k | 0 <= k < |n| ensures n[k] != '.' { assert Text.IsDigit(n[k]); }
    }
    Text.SplitCharCons(m, '.', n);
    Text.SplitCharAbsent(n, '.');
  }

  /** On a well-formed "M.m", regenerating bumps the minor number. */
  lemma NumberAfterDottedOptimize(major: nat, minor: nat)
    ensures NumberAfter(Dotted(major, minor), Optimize) == Dotted(major, minor + 1)
  {
    ReadDotted(major, minor);
  }

  /** On a well-formed "M.m", saving bumps the major number and resets the
      minor one. */
  lemma NumberAfterDottedSave(major: nat, minor: nat)
    ensures NumberAfter(Dotted(major, minor), Save) == Dotted(major + 1, 0)
  {
    ReadDotted(major, minor);
    var s := Text.NatToString(major + 1);
    assert NumberAfter(Dotted(major, minor), Save) == s + ".0";
    assert Text.NatToString(0) == "0";
    assert Dotted(major + 1, 0) == s + "." + "0";
    assert s + "." + "0" == s + ".0";
  }

  /** `split('.').map(Number)` on a rendered "M.m" gives M and m. */
  lemma ReadDotted(major: nat, minor: nat)
    ensures var parts := Text.Split(Dotted(major, minor), ".");
      |parts| == 2 && Text.ToNumber(parts[0]) == Text.Finite(major)
      && Text.ToNumber(parts[1]) == Text.Finite(minor)
  {
    SplitDotted(major, minor);
    Text.ToNumberOfNatToString(major);
    Text.ToNumberOfNatToString(minor);
  }

  /** The proposed number continues the newest version of the topic. */
  lemma NextVersionNumberBumps(versions: seq<Version>, topic: string, major: nat, minor: nat)
    requires FirstWithTopic(versions, topic).Some?
    requires FirstWithTopic(versions, topic).value.versionNumber == Dotted(major, minor)
    ensures NextVersionNumber(versions, topic, Optimize) == Dotted(major, minor + 1)
    ensures NextVersionNumber(versions, topic, Save) == Dotted(major + 1, 0)
  {
    NumberAfterDottedOptimize(major, minor);
    NumberAfterDottedSave(major, minor);
  }

  /** The topic of a workflow started from `input`: its first 20 characters,
      followed by "..." exactly when something was cut off. */
  function Topic(input: string): (r: string)
    ensures |input| <= 20 ==> r == input
    ensures |input| > 20 ==> |r| == 23 && r[..20] == input[..20] && r[20..] == "..."
  {
    (if |input| <= 20 then input else input[..20]) + (if |input| > 20 then "..." else "")
  }

  /** The topic sent with a regenerated version: the current topic, or
      else the first ten characters of the input. */
  function RegenerateTopic(currentTopic: string, input: string): (r: string)
    ensures currentTopic != "" ==> r == currentTopic
    ensures currentTopic == "" ==> r <= input && |r| == if |input| < 10 then |input| else 10
  {
    if currentTopic != "" then currentTopic else Text.PyTake(input, 10)
  }

  /** `versions.map(v => v.id === id ? { ...v, versionNumber } : v)`. */
  function Relabel(versions: seq<Version>, id: string, versionNumber: string): (r: seq<Version>)
  {
    if |versions| == 0 then []
    else [if versions[0].id == id then versions[0].(versionNumber := versionNumber) else versions[0]]
         + Relabel(versions[1..], id, versionNumber)
  }

  /** Relabelling changes the version number of the matching versions and
      nothing else: same length, same order, every other field kept. */
  lemma {:induction false} RelabelOnlyMatching(versions: seq<Version>, id: string, versionNumber: string)
    ensures var r := Relabel(versions, id, versionNumber);
      |r| == |versions| &&
      forall k :: 0 <= k < |r| ==>
        r[k].(versionNumber := versions[k].versionNumber) == versions[k] &&
        (r[k].id == id ==> r[k].versionNumber == versionNumber) &&
        (r[k].id != id ==> r[k] == versions[k])
  {
    if |versions| > 0 {
      RelabelOnlyMatching(versions[1..], id, versionNumber);
    }
  }

  /** The two versions shown side by side. */
  datatype ComparisonPair = ComparisonPair(older: Option<Version>, newer: Option<Version>)

  // ---------------------------------------------------------------------
  // Page state

  class WorkspaceState {
    var outputContent: string
    var versions: seq<Version>
    var editorContent: string
    var selectedVersionIds: seq<string>
    var viewMode: ViewMode
    var currentVersionId: Option<string>
    var currentTopic: string
    var isEditorCollapsed: bool

    /** What every handler keeps: at most two distinct ids are selected,
        and the comparison is shown only with exactly two selected and the
        editor collapsed. */
    predicate Valid()
      reads this
    {
      |selectedVersionIds| <= 2 && Seqs.NoDuplicates(selectedVersionIds)
      && (viewMode == Comparison ==> |selectedVersionIds| == 2 && isEditorCollapsed)
    }

    constructor ()
      ensures Valid()
      ensures outputContent == "" && versions == [] && editorContent == ""
      ensures selectedVersionIds == [] && viewMode == Editor && currentVersionId == None
      ensures currentTopic == "" && !isEditorCollapsed
    {
      outputContent := "";
      versions := [];
      editorContent := "";
      selectedVersionIds := [];
      viewMode := Editor;
      currentVersionId := None;
      currentTopic := "";
      isEditorCollapsed := false;
    }

    /** The pair to compare: present only when exactly two ids are selected,
        the first selected one as the older side. */
    function ComparisonVersions(): (r: Option<ComparisonPair>)
      reads this
      ensures r.Some? <==> |selectedVersionIds| == 2
      ensures r.Some? ==> r.value.older == FindVersion(versions, selectedVersionIds[0])
      ensures r.Some? ==> r.value.newer == FindVersion(versions, selectedVersionIds[1])
      ensures r.Some? && r.value.older.Some? ==> r.value.older.value.id == selectedVersionIds[0]
      ensures r.Some? && r.value.newer.Some? ==> r.value.newer.value.id == selectedVersionIds[1]
    {
      if |selectedVersionIds| == 2 then
        Some(ComparisonPair(FindVersion(versions, selectedVersionIds[0]),
                            FindVersion(versions, selectedVersionIds[1])))
      else None
    }

    /** Whether the side-by-side comparison is on screen. */
    predicate ShowsComparison()
      reads this
    {
      var c := ComparisonVersions();
      viewMode == Comparison && c.Some? && c.value.older.Some? && c.value.newer.Some?
    }

    /** Clicking a version in the history: a selected one is deselected; an
        unselected one is added while fewer than two are selected, and
        otherwise replaces the second. Two selected versions open the
        comparison with the editor collapsed; a single one is shown in the
        output pane. */
    method SelectVersion(versionId: string)
      modifies this
      ensures old(Valid()) ==> Valid()
      ensures versions == old(versions) && editorContent == old(editorContent)
      ensures currentTopic == old(currentTopic)
      ensures old(versionId in selectedVersionIds) ==>
        selectedVersionIds == Seqs.Without(old(selectedVersionIds), versionId)
        && (|selectedVersionIds| < 2 ==> viewMode == Editor && !isEditorCollapsed)
        && (|selectedVersionIds| >= 2 ==> viewMode == old(viewMode) && isEditorCollapsed == old(isEditorCollapsed))
        && outputContent == old(outputContent) && currentVersionId == old(currentVersionId)
      ensures old(versionId !in selectedVersionIds && |selectedVersionIds| == 1) ==>
        selectedVersionIds == old(selectedVersionIds) + [versionId]
        && viewMode == Comparison && isEditorCollapsed
        && outputContent == old(outputContent) && currentVersionId == old(currentVersionId)
      ensures old(versionId !in selectedVersionIds && |selectedVersionIds| == 0) ==>
        selectedVersionIds == [versionId]
        && var found := FindVersion(old(versions), versionId);
           (found.Some? ==> outputContent == found.value.content && currentVersionId == Some(versionId)
                            && viewMode == Editor && !isEditorCollapsed)
           && (found.None? ==> outputContent == old(outputContent) && currentVersionId == old(currentVersionId)
                               && viewMode == old(viewMode) && isEditorCollapsed == old(isEditorCollapsed))
      ensures old(versionId !in selectedVersionIds && |selectedVersionIds| >= 2) ==>
        selectedVersionIds == [old(selectedVersionIds[0]), versionId]
        && viewMode == Comparison && isEditorCollapsed
        && outputContent == old(outputContent) && currentVersionId == old(currentVersionId)
    {
      if versionId in selectedVersionIds {
        var newSelected := Seqs.Without(selectedVersionIds, versionId);
        if old(Valid()) {
          Seqs.WithoutNoDuplicates(selectedVersionIds, versionId);
        }
        selectedVersionIds := newSelected;
        if |newSelected| < 2 {
          viewMode := Editor;
          isEditorCollapsed := false;
        }
      } else if |selectedVersionIds| < 2 {
        var newSelected := selectedVersionIds + [versionId];
        selectedVersionIds := newSelected;
        if |newSelected| == 2 {
          viewMode := Comparison;
          isEditorCollapsed := true;
        } else {
          var version := FindVersion(versions, versionId);
          if version.Some? {
            outputContent := version.value.content;
            currentVersionId := Some(version.value.id);
            viewMode := Editor;
            isEditorCollapsed := false;
          }
        }
      } else {
        selectedVersionIds := [selectedVersionIds[0], versionId];
        viewMode := Comparison;
        isEditorCollapsed := true;
      }
    }

    /** The collapse button: expanding leaves the comparison, clears the
        selection and shows the newest version; collapsing is possible only
        while comparing. */
    method ToggleEditorCollapse()
      modifies this
      ensures old(Valid()) ==> Valid()
      ensures versions == old(versions) && editorContent == old(editorContent)
      ensures currentTopic == old(currentTopic)
      ensures old(isEditorCollapsed) ==>
        !isEditorCollapsed && viewMode == Editor && selectedVersionIds == []
        && (|versions| > 0 ==> outputContent == versions[0].content && currentVersionId == Some(versions[0].id))
        && (|versions| == 0 ==> outputContent == old(outputContent) && currentVersionId == old(currentVersionId))
      ensures !old(isEditorCollapsed) ==>
        isEditorCollapsed == (old(viewMode) == Comparison)
        && viewMode == old(viewMode) && selectedVersionIds == old(selectedVersionIds)
        && outputContent == old(outputContent) && currentVersionId == old(currentVersionId)
    {
      if isEditorCollapsed {
        isEditorCollapsed := false;
        viewMode := Editor;
        selectedVersionIds := [];
        if |versions| > 0 {
          outputContent := versions[0].content;
          currentVersionId := Some(versions[0].id);
        }
      } else {
        if viewMode == Comparison {
          isEditorCollapsed := true;
        }
      }
    }

    /** Restoring a version from the history copies its content into both
        panes, makes it current and returns to the editor. */
    method RestoreVersion(version: Version)
      modifies this
      ensures old(Valid()) ==> Valid()
      ensures outputContent == version.content && editorContent == version.content
      ensures currentVersionId == Some(version.id)
      ensures selectedVersionIds == [] && viewMode == Editor
      ensures versions == old(versions) && currentTopic == old(currentTopic)
      ensures isEditorCollapsed == old(isEditorCollapsed)
    {
      outputContent := version.content;
      editorContent := version.content;
      currentVersionId := Some(version.id);
      selectedVersionIds := [];
      viewMode := Editor;
    }

    /** Editing a version number in the history. */
    method UpdateVersionNumber(versionId: string, newVersionNumber: string)
      modifies this
      ensures versions == Relabel(old(versions), versionId, newVersionNumber)
      ensures outputContent == old(outputContent) && editorContent == old(editorContent)
      ensures selectedVersionIds == old(selectedVersionIds) && viewMode == old(viewMode)
      ensures currentVersionId == old(currentVersionId) && currentTopic == old(currentTopic)
      ensures isEditorCollapsed == old(isEditorCollapsed)
    {
      versions := Relabel(versions, versionId, newVersionNumber);
    }

    /** "Merge" in the comparison: the version becomes the output and the
        current version; the editor keeps its text. Unknown ids do nothing. */
    method Merge(versionId: string)
      modifies this
      ensures old(Valid()) ==> Valid()
      ensures editorContent == old(editorContent)
      ensures versions == old(versions) && currentTopic == old(currentTopic)
      ensures isEditorCollapsed == old(isEditorCollapsed)
      ensures var found := FindVersion(old(versions), versionId);
        (found.Some? ==> outputContent == found.value.content && currentVersionId == Some(versionId)
                         && selectedVersionIds == [] && viewMode == Editor)
        && (found.None? ==> outputContent == old(outputContent) && currentVersionId == old(currentVersionId)
                            && selectedVersionIds == old(selectedVersionIds) && viewMode == old(viewMode))
    {
      var version := FindVersion(versions, versionId);
      if version.Some? {
        outputContent := version.value.content;
        currentVersionId := Some(version.value.id);
        selectedVersionIds := [];
        viewMode := Editor;
      }
    }

    /** "Revert" in the comparison: like a restore of the version found by
        id; unknown ids do nothing. */
    method Revert(versionId: string)
      modifies this
      ensures old(Valid()) ==> Valid()
      ensures versions == old(versions) && currentTopic == old(currentTopic)
      ensures isEditorCollapsed == old(isEditorCollapsed)
      ensures var found := FindVersion(old(versions), versionId);
        (found.Some? ==> outputContent == found.value.content && editorContent == found.value.content
                         && currentVersionId == Some(versionId)
                         && selectedVersionIds == [] && viewMode == Editor)
        && (found.None? ==> outputContent == old(outputContent) && editorContent == old(editorContent)
                            && currentVersionId == old(currentVersionId)
                            && selectedVersionIds == old(selectedVersionIds) && viewMode == old(viewMode))
    {
      var version := FindVersion(versions, versionId);
      if version.Some? {
        outputContent := version.value.content;
        editorContent := version.value.content;
        currentVersionId := Some(version.value.id);
        selectedVersionIds := [];
        viewMode := Editor;
      }
    }

    /** The comparison's revert button, which passes the older version's id;
        it exists only while the comparison is on screen. */
    method RevertFromComparison()
      modifies this
      ensures old(Valid()) ==> Valid()
      ensures old(ShowsComparison()) ==>
        var older := old(ComparisonVersions()).value.older.value;
        editorContent == older.content && outputContent == older.content
        && currentVersionId == Some(older.id) && older.id == old(selectedVersionIds[0])
        && selectedVersionIds == [] && viewMode == Editor
      ensures !old(ShowsComparison()) ==>
        outputContent == old(outputContent) && editorContent == old(editorContent)
        && currentVersionId == old(currentVersionId) && selectedVersionIds == old(selectedVersionIds)
        && viewMode == old(viewMode)
      ensures versions == old(versions) && isEditorCollapsed == old(isEditorCollapsed)
    {
      if ShowsComparison() {
        var older := ComparisonVersions().value.older.value;
        Revert(older.id);
      }
    }

    /** The comparison's merge button, which passes the newer version's id. */
    method MergeFromComparison()
      modifies this
      ensures old(Valid()) ==> Valid()
      ensures old(ShowsComparison()) ==>
        var newer := old(ComparisonVersions()).value.newer.value;
        outputContent == newer.content && editorContent == old(editorContent)
        && currentVersionId == Some(newer.id) && newer.id == old(selectedVersionIds[1])
        && selectedVersionIds == [] && viewMode == Editor
      ensures !old(ShowsComparison()) ==>
        outputContent == old(outputContent) && currentVersionId == old(currentVersionId)
        && selectedVersionIds == old(selectedVersionIds) && viewMode == old(viewMode)
      ensures versions == old(versions) && isEditorCollapsed == old(isEditorCollapsed)
    {
      if ShowsComparison() {
        var newer := ComparisonVersions().value.newer.value;
        Merge(newer.id);
      }
    }

    /** "Modify" in the output pane puts text into the editor. */
    method Modify(content: string)
      modifies this
      ensures old(Valid()) ==> Valid()
      ensures editorContent == content && viewMode == Editor
      ensures outputContent == old(outputContent) && versions == old(versions)
      ensures selectedVersionIds == old(selectedVersionIds) && currentVersionId == old(currentVersionId)
      ensures currentTopic == old(currentTopic) && isEditorCollapsed == old(isEditorCollapsed)
    {
      editorContent := content;
      viewMode := Editor;
    }

    /** The version the server stored for a save or a regeneration, with the
        locally computed number standing in for a missing one. */
    function StoredVersion(saved: Version, kind: Kind): (r: Version)
      reads this
      ensures r.(versionNumber := saved.versionNumber) == saved
      ensures saved.versionNumber != "" ==> r == saved
      ensures saved.versionNumber == "" ==> r.versionNumber == NextVersionNumber(versions, currentTopic, kind)
    {
      if saved.versionNumber != "" then saved
      else saved.(versionNumber := NextVersionNumber(versions, currentTopic, kind))
    }

    /** After a manual save: the stored version goes to the front of the
        list and becomes current. */
    method AddSavedVersion(saved: Version)
      modifies this
      ensures old(Valid()) ==> Valid()
      ensures versions == [old(StoredVersion(saved, Save))] + old(versions)
      ensures currentVersionId == Some(saved.id)
      ensures outputContent == old(outputContent) && editorContent == old(editorContent)
      ensures selectedVersionIds == old(selectedVersionIds) && viewMode == old(viewMode)
      ensures currentTopic == old(currentTopic) && isEditorCollapsed == old(isEditorCollapsed)
    {
      var stored := StoredVersion(saved, Save);
      versions := [stored] + versions;
      currentVersionId := Some(saved.id);
    }

    /** After a regeneration: the new output is shown, and the stored
        version goes to the front of the list and becomes current. */
    method AddRegeneratedVersion(output: string, saved: Version)
      modifies this
      ensures old(Valid()) ==> Valid()
      ensures outputContent == output
      ensures versions == [old(StoredVersion(saved, Optimize))] + old(versions)
      ensures currentVersionId == Some(saved.id)
      ensures editorContent == old(editorContent)
      ensures selectedVersionIds == old(selectedVersionIds) && viewMode == old(viewMode)
      ensures currentTopic == old(currentTopic) && isEditorCollapsed == old(isEditorCollapsed)
    {
      var stored := StoredVersion(saved, Optimize);
      outputContent := output;
      versions := [stored] + versions;
      currentVersionId := Some(saved.id);
    }
  }

  /** A selection reached by clicks from an empty selection never exceeds
      two distinct ids: whatever is clicked, `Valid` is kept. */
  method SelectionStaysSmall(clicks: seq<string>) returns (w: WorkspaceState)
    ensures fresh(w) && w.Valid()
    ensures |w.selectedVersionIds| <= 2 && Seqs.NoDuplicates(w.selectedVersionIds)
  {
    w := new WorkspaceState();
    var n := 0;
    while n < |clicks|
      invariant 0 <= n <= |clicks|
      invariant w.Valid()
    {
      w.SelectVersion(clicks[n]);
      n := n + 1;
    }
  }
}
