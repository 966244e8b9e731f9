/** The line-level comparison shown when two versions are compared side by
    side: both texts are split on '\n' and walked with two cursors; equal
    lines are shown unchanged on both sides, a line missing from the other
    text is shown as deleted (left) or added (right), and anything else is
    shown as a deletion on the left plus an addition on the right. */
module LineDiff {
  import opened Wrappers
  import Text

  datatype LineKind = Added | Deleted | Unchanged

  /** One rendered row: its kind, its text and its 1-based line number in
      the version it belongs to. */
  datatype DiffLine = DiffLine(kind: LineKind, content: string, lineNumber: nat)

  /** The rows of the left (older) panel and of the right (newer) panel. */
  datatype SideBySide = SideBySide(oldLines: seq<DiffLine>, newLines: seq<DiffLine>)

  /** What the client gets when it splits a version's content on newlines. */
  function Lines(content: string): (r: seq<string>)
    ensures |r| >= 1
    ensures Text.Join(r, "\n") == content
  {
    Text.JoinSplit(content, "\n");
    Text.Split(content, "\n")
  }

  /** Indexing a JavaScript array: `undefined` past the end. */
  function At(lines: seq<string>, i: nat): (r: Option<string>)
    ensures r.Some? <==> i < |lines|
    ensures r.Some? ==> r.value == lines[i]
  {
    if i < |lines| then Some(lines[i]) else None
  }

  /** The branch the loop takes with the cursors at `i` and `j`. */
  datatype Step = Same | DropOld | AddNew | Replace

  function StepAt(a: seq<string>, b: seq<string>, i: nat, j: nat): Step
  {
    if At(a, i) == At(b, j) then Same
    else if i < |a| && a[i] !in b then DropOld
    else if j < |b| && b[j] !in a then AddNew
    else Replace
  }

  /** The rows still to be produced once the cursors are at `i` and `j`. */
  function DiffFrom(a: seq<string>, b: seq<string>, i: nat, j: nat): SideBySide
    requires i <= |a| && j <= |b|
    decreases |a| - i + |b| - j
  {
    if i == |a| && j == |b| then SideBySide([], [])
    else
      match StepAt(a, b, i, j)
      case Same =>
        var rest := DiffFrom(a, b, i + 1, j + 1);
        SideBySide([DiffLine(Unchanged, a[i], i + 1)] + rest.oldLines,
                   [DiffLine(Unchanged, b[j], j + 1)] + rest.newLines)
      case DropOld =>
        var rest := DiffFrom(a, b, i + 1, j);
        SideBySide([DiffLine(Deleted, a[i], i + 1)] + rest.oldLines, rest.newLines)
      case AddNew =>
        var rest := DiffFrom(a, b, i, j + 1);
        SideBySide(rest.oldLines, [DiffLine(Added, b[j], j + 1)] + rest.newLines)
      case Replace =>
        var i' := if i < |a| then i + 1 else i;
        var j' := if j < |b| then j + 1 else j;
        var rest := DiffFrom(a, b, i', j');
        SideBySide((if i < |a| then [DiffLine(Deleted, a[i], i + 1)] else []) + rest.oldLines,
                   (if j < |b| then [DiffLine(Added, b[j], j + 1)] else []) + rest.newLines)
  }

  /** The comparison of two versions' contents. */
  function Compare(oldContent: string, newContent: string): SideBySide
  {
    DiffFrom(Lines(oldContent), Lines(newContent), 0, 0)
  }

  /** The loop of the comparison view, pushing rows onto both panels. */
  method ComputeDiff(oldContent: string, newContent: string) returns (r: SideBySide)
    ensures r == Compare(oldContent, newContent)
  {
    var a := Text.Split(oldContent, "\n");
    var b := Text.Split(newContent, "\n");
    var oldDiff: seq<DiffLine> := [];
    var newDiff: seq<DiffLine> := [];
    var i: nat, j: nat := 0, 0;
    ghost var full := DiffFrom(a, b, 0, 0);
    while i < |a| || j < |b|
      invariant i <= |a| && j <= |b|
      invariant full.oldLines == oldDiff + DiffFrom(a, b, i, j).oldLines
      invariant full.newLines == newDiff + DiffFrom(a, b, i, j).newLines
      decreases |a| - i + |b| - j
    {
      oldDiff, newDiff, i, j := DiffStep(a, b, oldDiff, newDiff, i, j);
    }
    assert DiffFrom(a, b, i, j) == SideBySide([], []);
    r := SideBySide(oldDiff, newDiff);
  }

  /** One iteration of the loop: the rows it pushes are the first rows of
      what is still to be produced, and the cursors advance. */
  method DiffStep(a: seq<string>, b: seq<string>, oldDiff: seq<DiffLine>, newDiff: seq<DiffLine>, i: nat, j: nat)
      returns (oldDiff': seq<DiffLine>, newDiff': seq<DiffLine>, i': nat, j': nat)
    requires i <= |a| && j <= |b| && (i < |a| || j < |b|)
    ensures i' <= |a| && j' <= |b| && |a| - i' + |b| - j' < |a| - i + |b| - j
    ensures oldDiff + DiffFrom(a, b, i, j).oldLines == oldDiff' + DiffFrom(a, b, i', j').oldLines
    ensures newDiff + DiffFrom(a, b, i, j).newLines == newDiff' + DiffFrom(a, b, i', j').newLines
  {
    oldDiff', newDiff', i', j' := oldDiff, newDiff, i, j;
    var oldLine := At(a, i);
    var newLine := At(b, j);
    if oldLine == newLine {
      UnfoldSame(a, b, i, j);
      DiffPrepend(oldDiff, DiffLine(Unchanged, a[i], i + 1), DiffFrom(a, b, i + 1, j + 1).oldLines);
      DiffPrepend(newDiff, DiffLine(Unchanged, b[j], j + 1), DiffFrom(a, b, i + 1, j + 1).newLines);
      oldDiff' := oldDiff' + [DiffLine(Unchanged, a[i], i + 1)];
      newDiff' := newDiff' + [DiffLine(Unchanged, b[j], j + 1)];
      i', j' := i' + 1, j' + 1;
    } else if i < |a| && a[i] !in b {
      UnfoldDropOld(a, b, i, j);
      DiffPrepend(oldDiff, DiffLine(Deleted, a[i], i + 1), DiffFrom(a, b, i + 1, j).oldLines);
      oldDiff' := oldDiff' + [DiffLine(Deleted, a[i], i + 1)];
      i' := i' + 1;
    } else if j < |b| && b[j] !in a {
      UnfoldAddNew(a, b, i, j);
      DiffPrepend(newDiff, DiffLine(Added, b[j], j + 1), DiffFrom(a, b, i, j + 1).newLines);
      newDiff' := newDiff' + [DiffLine(Added, b[j], j + 1)];
      j' := j' + 1;
    } else {
      UnfoldReplace(a, b, i, j);
      ghost var rest := DiffFrom(a, b, if i < |a| then i + 1 else i, if j < |b| then j + 1 else j);
      if i < |a| {
        DiffPrepend(oldDiff, DiffLine(Deleted, a[i], i + 1), rest.oldLines);
        oldDiff' := oldDiff' + [DiffLine(Deleted, a[i], i + 1)];
        i' := i' + 1;
      }
      if j < |b| {
        DiffPrepend(newDiff, DiffLine(Added, b[j], j + 1), rest.newLines);
        newDiff' := newDiff' + [DiffLine(Added, b[j], j + 1)];
        j' := j' + 1;
      }
    }
  }

  // One step of the loop, unfolded.

  lemma DiffPrepend(done: seq<DiffLine>, l: DiffLine, rest: seq<DiffLine>)
    ensures done + ([l] + rest) == (done + [l]) + rest
  {
  }

  lemma UnfoldSame(a: seq<string>, b: seq<string>, i: nat, j: nat)
    requires i <= |a| && j <= |b| && (i < |a| || j < |b|) && At(a, i) == At(b, j)
    ensures i < |a| && j < |b|
    ensures DiffFrom(a, b, i, j).oldLines == [DiffLine(Unchanged, a[i], i + 1)] + DiffFrom(a, b, i + 1, j + 1).oldLines
    ensures DiffFrom(a, b, i, j).newLines == [DiffLine(Unchanged, b[j], j + 1)] + DiffFrom(a, b, i + 1, j + 1).newLines
  {
  }

  lemma UnfoldDropOld(a: seq<string>, b: seq<string>, i: nat, j: nat)
    requires i < |a| && j <= |b| && At(a, i) != At(b, j) && a[i] !in b
    ensures DiffFrom(a, b, i, j).oldLines == [DiffLine(Deleted, a[i], i + 1)] + DiffFrom(a, b, i + 1, j).oldLines
    ensures DiffFrom(a, b, i, j).newLines == DiffFrom(a, b, i + 1, j).newLines
  {
  }

  lemma UnfoldAddNew(a: seq<string>, b: seq<string>, i: nat, j: nat)
    requires i <= |a| && j < |b| && At(a, i) != At(b, j) && !(i < |a| && a[i] !in b) && b[j] !in a
    ensures DiffFrom(a, b, i, j).oldLines == DiffFrom(a, b, i, j + 1).oldLines
    ensures DiffFrom(a, b, i, j).newLines == [DiffLine(Added, b[j], j + 1)] + DiffFrom(a, b, i, j + 1).newLines
  {
  }

  lemma UnfoldReplace(a: seq<string>, b: seq<string>, i: nat, j: nat)
    requires i <= |a| && j <= |b| && (i < |a| || j < |b|) && At(a, i) != At(b, j)
    requires !(i < |a| && a[i] !in b) && !(j < |b| && b[j] !in a)
    ensures var rest := DiffFrom(a, b, if i < |a| then i + 1 else i, if j < |b| then j + 1 else j);
      DiffFrom(a, b, i, j).oldLines
        == (if i < |a| then [DiffLine(Deleted, a[i], i + 1)] + rest.oldLines else rest.oldLines)
      && DiffFrom(a, b, i, j).newLines
        == (if j < |b| then [DiffLine(Added, b[j], j + 1)] + rest.newLines else rest.newLines)
  {
    var rest := DiffFrom(a, b, if i < |a| then i + 1 else i, if j < |b| then j + 1 else j);
    assert [] + rest.oldLines == rest.oldLines;
    assert [] + rest.newLines == rest.newLines;
  }

  // ---------------------------------------------------------------------
  // Reading the result

  /** The contents of the unchanged rows, in order. */
  function UnchangedContents(lines: seq<DiffLine>): seq<string>
  {
    if |lines| == 0 then []
    else (if lines[0].kind == Unchanged then [lines[0].content] else [])
         + UnchangedContents(lines[1..])
  }

  /** How many rows have the given kind (the counters in the header). */
  function CountKind(lines: seq<DiffLine>, kind: LineKind): nat
  {
    if |lines| == 0 then 0
    else (if lines[0].kind == kind then 1 else 0) + CountKind(lines[1..], kind)
  }

  lemma UnchangedContentsCons(l: DiffLine, rest: seq<DiffLine>)
    ensures UnchangedContents([l] + rest)
         == (if l.kind == Unchanged then [l.content] else []) + UnchangedContents(rest)
  {
    assert ([l] + rest)[1..] == rest;
  }

  lemma CountKindCons(l: DiffLine, rest: seq<DiffLine>, kind: LineKind)
    ensures CountKind([l] + rest, kind) == (if l.kind == kind then 1 else 0) + CountKind(rest, kind)
  {
    assert ([l] + rest)[1..] == rest;
  }

  /** `lines` shows `src` from index `from` on: one row per line, in
      order, with the line's content and 1-based number, and no row of kind
      `never`. */
  predicate Shows(lines: seq<DiffLine>, src: seq<string>, from: nat, never: LineKind)
  {
    from <= |src| && |lines| == |src| - from &&
    forall k :: 0 <= k < |lines| ==>
      lines[k].content == src[from + k] && lines[k].lineNumber == from + k + 1 && lines[k].kind != never
  }

  /** A row for line `from` in front of rows showing the lines after it
      shows the lines from `from` on. */
  lemma ShowsCons(l: DiffLine, rest: seq<DiffLine>, src: seq<string>, from: nat, never: LineKind)
    requires from < |src| && Shows(rest, src, from + 1, never)
    requires l.content == src[from] && l.lineNumber == from + 1 && l.kind != never
    ensures Shows([l] + rest, src, from, never)
  {
    var r := [l] + rest;
    forall k | 0 <= k < |r|
      ensures r[k].content == src[from + k] && r[k].lineNumber == from + k + 1 && r[k].kind != never
    {
      if k > 0 {
        assert r[k] == rest[k - 1];
      }
    }
  }

  /** Every line of both texts appears exactly once, in order, with its own
      content and line number; the left panel never shows an addition and
      the right panel never shows a deletion. */
  lemma {:induction false} DiffCovers(a: seq<string>, b: seq<string>, i: nat, j: nat)
    requires i <= |a| && j <= |b|
    ensures Shows(DiffFrom(a, b, i, j).oldLines, a, i, Added)
    ensures Shows(DiffFrom(a, b, i, j).newLines, b, j, Deleted)
    decreases |a| - i + |b| - j
  {
    if i == |a| && j == |b| {
    } else if At(a, i) == At(b, j) {
      UnfoldSame(a, b, i, j);
      var rest := DiffFrom(a, b, i + 1, j + 1);
      DiffCovers(a, b, i + 1, j + 1);
      ShowsCons(DiffLine(Unchanged, a[i], i + 1), rest.oldLines, a, i, Added);
      ShowsCons(DiffLine(Unchanged, b[j], j + 1), rest.newLines, b, j, Deleted);
    } else if i < |a| && a[i] !in b {
      UnfoldDropOld(a, b, i, j);
      var rest := DiffFrom(a, b, i + 1, j);
      DiffCovers(a, b, i + 1, j);
      ShowsCons(DiffLine(Deleted, a[i], i + 1), rest.oldLines, a, i, Added);
    } else if j < |b| && b[j] !in a {
      UnfoldAddNew(a, b, i, j);
      var rest := DiffFrom(a, b, i, j + 1);
      DiffCovers(a, b, i, j + 1);
      ShowsCons(DiffLine(Added, b[j], j + 1), rest.newLines, b, j, Deleted);
    } else {
      UnfoldReplace(a, b, i, j);
      var i' := if i < |a| then i + 1 else i;
      var j' := if j < |b| then j + 1 else j;
      var rest := DiffFrom(a, b, i', j');
      DiffCovers(a, b, i', j');
      if i < |a| {
        ShowsCons(DiffLine(Deleted, a[i], i + 1), rest.oldLines, a, i, Added);
      }
      if j < |b| {
        ShowsCons(DiffLine(Added, b[j], j + 1), rest.newLines, b, j, Deleted);
      }
    }
  }

  /** The unchanged rows of the two panels carry the same lines in the same
      order: they form a common subsequence of the two texts. */
  lemma {:induction false} UnchangedAgree(a: seq<string>, b: seq<string>, i: nat, j: nat)
    requires i <= |a| && j <= |b|
    ensures UnchangedContents(DiffFrom(a, b, i, j).oldLines)
         == UnchangedContents(DiffFrom(a, b, i, j).newLines)
    decreases |a| - i + |b| - j
  {
    if i == |a| && j == |b| {
    } else if At(a, i) == At(b, j) {
      UnfoldSame(a, b, i, j);
      var rest := DiffFrom(a, b, i + 1, j + 1);
      UnchangedAgree(a, b, i + 1, j + 1);
      UnchangedContentsCons(DiffLine(Unchanged, a[i], i + 1), rest.oldLines);
      UnchangedContentsCons(DiffLine(Unchanged, b[j], j + 1), rest.newLines);
    } else if i < |a| && a[i] !in b {
      UnfoldDropOld(a, b, i, j);
      var rest := DiffFrom(a, b, i + 1, j);
      UnchangedAgree(a, b, i + 1, j);
      UnchangedContentsCons(DiffLine(Deleted, a[i], i + 1), rest.oldLines);
    } else if j < |b| && b[j] !in a {
      UnfoldAddNew(a, b, i, j);
      var rest := DiffFrom(a, b, i, j + 1);
      UnchangedAgree(a, b, i, j + 1);
      UnchangedContentsCons(DiffLine(Added, b[j], j + 1), rest.newLines);
    } else {
      UnfoldReplace(a, b, i, j);
      var i' := if i < |a| then i + 1 else i;
      var j' := if j < |b| then j + 1 else j;
      var rest := DiffFrom(a, b, i', j');
      UnchangedAgree(a, b, i', j');
      if i < |a| {
        UnchangedContentsCons(DiffLine(Deleted, a[i], i + 1), rest.oldLines);
      }
      if j < |b| {
        UnchangedContentsCons(DiffLine(Added, b[j], j + 1), rest.newLines);
      }
    }
  }

  /** An unchanged row's content is among the unchanged contents. */
  lemma {:induction false} UnchangedRowIn(lines: seq<DiffLine>, m: nat)
    requires m < |lines| && lines[m].kind == Unchanged
    ensures lines[m].content in UnchangedContents(lines)
    decreases m
  {
    if m > 0 {
      assert lines[1..][m - 1] == lines[m];
      UnchangedRowIn(lines[1..], m - 1);
    }
  }

  /** Rows showing `src` have unchanged contents taken from `src`. */
  lemma {:induction false} UnchangedWithin(lines: seq<DiffLine>, src: seq<string>, from: nat, never: LineKind)
    requires Shows(lines, src, from, never)
    ensures forall x :: x in UnchangedContents(lines) ==> x in src
    decreases |lines|
  {
    if |lines| > 0 {
      var rest := lines[1..];
      assert Shows(rest, src, from + 1, never) by {
        forall n | 0 <= n < |rest|
          ensures rest[n].content == src[from + 1 + n] && rest[n].lineNumber == from + 1 + n + 1 && rest[n].kind != never
        {
          assert rest[n] == lines[n + 1];
        }
      }
      UnchangedWithin(rest, src, from + 1, never);
      assert lines[0].content == src[from];
    }
  }

  /** A line of the old text that the new text does not contain is always
      shown as deleted (so a row shown unchanged is a line both texts have). */
  lemma MissingLineDeleted(a: seq<string>, b: seq<string>, i: nat, j: nat, k: nat)
    requires i <= k < |a| && j <= |b| && a[k] !in b
    ensures var d := DiffFrom(a, b, i, j); k - i < |d.oldLines| && d.oldLines[k - i].kind == Deleted
  {
    var d := DiffFrom(a, b, i, j);
    DiffCovers(a, b, i, j);
    UnchangedAgree(a, b, i, j);
    UnchangedWithin(d.newLines, b, j, Deleted);
    assert d.oldLines[k - i].content == a[k];
    if d.oldLines[k - i].kind == Unchanged {
      UnchangedRowIn(d.oldLines, k - i);
    }
  }

  /** A line of the new text that the old text does not contain is always
      shown as added. */
  lemma MissingLineAdded(a: seq<string>, b: seq<string>, i: nat, j: nat, k: nat)
    requires i <= |a| && j <= k < |b| && b[k] !in a
    ensures var d := DiffFrom(a, b, i, j); k - j < |d.newLines| && d.newLines[k - j].kind == Added
  {
    var d := DiffFrom(a, b, i, j);
    DiffCovers(a, b, i, j);
    UnchangedAgree(a, b, i, j);
    UnchangedWithin(d.oldLines, a, i, Added);
    assert d.newLines[k - j].content == b[k];
    if d.newLines[k - j].kind == Unchanged {
      UnchangedRowIn(d.newLines, k - j);
    }
  }

  /** Comparing a text with itself shows every row unchanged. */
  lemma {:induction false} SelfDiffUnchanged(a: seq<string>, i: nat)
    requires i <= |a|
    ensures var d := DiffFrom(a, a, i, i);
      d.oldLines == d.newLines &&
      forall k :: 0 <= k < |d.oldLines| ==> d.oldLines[k].kind == Unchanged
    decreases |a| - i
  {
    if i < |a| {
      SelfDiffUnchanged(a, i + 1);
    }
  }

  /** The number of unchanged rows is the length of their contents. */
  lemma {:induction false} UnchangedCount(lines: seq<DiffLine>)
    ensures |UnchangedContents(lines)| == CountKind(lines, Unchanged)
  {
    if |lines| > 0 {
      UnchangedCount(lines[1..]);
    }
  }

  /** A panel whose rows have only two kinds splits into those two counts. */
  lemma {:induction false} CountTwoKinds(lines: seq<DiffLine>, k1: LineKind, k2: LineKind, other: LineKind)
    requires k1 != k2 && other != k1 && other != k2
    requires forall n :: 0 <= n < |lines| ==> lines[n].kind != other
    ensures CountKind(lines, k1) + CountKind(lines, k2) == |lines|
  {
    if |lines| > 0 {
      CountTwoKinds(lines[1..], k1, k2, other);
    }
  }

  /** The header's counters: lines added on the right, lines deleted on the
      left. */
  datatype DiffStats = DiffStats(added: nat, deleted: nat)

  function Stats(d: SideBySide): DiffStats
  {
    DiffStats(CountKind(d.newLines, Added), CountKind(d.oldLines, Deleted))
  }

  /** The counters balance: both panels show the same number of unchanged
      lines, the old text's lines are the deleted and the unchanged ones,
      the new text's lines the added and the unchanged ones; so removing
      the deleted lines from the old text and the added lines from the new
      one leaves the same number of lines. */
  lemma StatsBalance(oldContent: string, newContent: string)
    ensures var d := Compare(oldContent, newContent);
      CountKind(d.oldLines, Unchanged) == CountKind(d.newLines, Unchanged)
    ensures var d := Compare(oldContent, newContent);
      Stats(d).deleted + CountKind(d.oldLines, Unchanged) == |Lines(oldContent)|
    ensures var d := Compare(oldContent, newContent);
      Stats(d).added + CountKind(d.newLines, Unchanged) == |Lines(newContent)|
    ensures var s := Stats(Compare(oldContent, newContent));
      |Lines(oldContent)| - s.deleted == |Lines(newContent)| - s.added
  {
    var a, b := Lines(oldContent), Lines(newContent);
    var d := DiffFrom(a, b, 0, 0);
    DiffCovers(a, b, 0, 0);
    UnchangedAgree(a, b, 0, 0);
    UnchangedCount(d.oldLines);
    UnchangedCount(d.newLines);
    CountTwoKinds(d.oldLines, Deleted, Unchanged, Added);
    CountTwoKinds(d.newLines, Added, Unchanged, Deleted);
  }

  /** One changed line in the middle: the kept lines are unchanged, the
      old middle line is deleted on the left and the new one added on the
      right. */
  lemma ChangedMiddleLine(x: string, y: string, y': string, z: string)
    requires y != x && y != y' && y != z && y' != x && y' != z
    ensures DiffFrom([x, y, z], [x, y', z], 0, 0)
         == SideBySide([DiffLine(Unchanged, x, 1), DiffLine(Deleted, y, 2), DiffLine(Unchanged, z, 3)],
                       [DiffLine(Unchanged, x, 1), DiffLine(Added, y', 2), DiffLine(Unchanged, z, 3)])
  {
    var a, b := [x, y, z], [x, y', z];
    assert a[1] !in b;
    assert b[1] !in a;
    assert a[2] in b by { assert b[2] == z; }
    assert DiffFrom(a, b, 3, 3) == SideBySide([], []);
    UnfoldSame(a, b, 2, 2);
    UnfoldAddNew(a, b, 2, 1);
    UnfoldDropOld(a, b, 1, 1);
    UnfoldSame(a, b, 0, 0);
  }

  /** Splitting three newline-free lines joined by '\n' gives them back. */
  lemma LinesOfThree(x: string, y: string, z: string)
    requires '\n' !in x && '\n' !in y && '\n' !in z
    ensures Lines(x + "\n" + y + "\n" + z) == [x, y, z]
  {
    Text.SplitCharAbsent(z, '\n');
    Text.SplitCharCons(y, '\n', z);
    assert x + "\n" + y + "\n" + z == x + ['\n'] + (y + ['\n'] + z);
    Text.SplitCharCons(x, '\n', y + ['\n'] + z);
  }

  /** The same on the versions' texts. */
  lemma ChangedMiddleLineText(x: string, y: string, y': string, z: string)
    requires '\n' !in x && '\n' !in y && '\n' !in y' && '\n' !in z
    requires y != x && y != y' && y != z && y' != x && y' != z
    ensures Compare(x + "\n" + y + "\n" + z, x + "\n" + y' + "\n" + z)
         == SideBySide([DiffLine(Unchanged, x, 1), DiffLine(Deleted, y, 2), DiffLine(Unchanged, z, 3)],
                       [DiffLine(Unchanged, x, 1), DiffLine(Added, y', 2), DiffLine(Unchanged, z, 3)])
  {
    LinesOfThree(x, y, z);
    LinesOfThree(x, y', z);
    ChangedMiddleLine(x, y, y', z);
  }
}
