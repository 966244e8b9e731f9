/** The history panel: versions are de-duplicated by id, grouped into
    workflows by topic, the workflows ordered newest first by the version
    that opened them, and each workflow's versions ordered newest first.
    Also the relative timestamps, the type labels, collapsing workflows and
    the inline rename editor. */
module VersionHistory {
  import opened Wrappers
  import Text
  import Seqs
  import Sorting
  import opened ClientVersion

  /** The topic shown for versions without one ("unnamed workflow"). */
  const Unnamed: string := "未命名工作流"

  /** `version.topic || '未命名工作流'`: an absent or empty topic is unnamed. */
  function TopicOf(v: Version): (t: string)
    ensures t != ""
    ensures v.topic.Some? && v.topic.value != "" ==> t == v.topic.value
    ensures v.topic.None? || v.topic.value == "" ==> t == Unnamed
  {
    match v.topic
    case Some(t) => if t != "" then t else Unnamed
    case None => Unnamed
  }

  datatype WorkflowGroup = WorkflowGroup(workflowId: string, topic: string, versions: seq<Version>)

  // ---------------------------------------------------------------------
  // De-duplication

  /** The ids occurring in `vs`. */
  function IdSet(vs: seq<Version>): set<string>
  {
    set k | 0 <= k < |vs| :: vs[k].id
  }

  predicate DistinctIds(vs: seq<Version>)
  {
    forall i, j :: 0 <= i < j < |vs| ==> vs[i].id != vs[j].id
  }

  /** The versions in order, each id kept at its first occurrence. */
  function Dedup(vs: seq<Version>): seq<Version>
    decreases |vs|
  {
    if |vs| == 0 then []
    else
      var p := Dedup(vs[..|vs| - 1]);
      var v := vs[|vs| - 1];
      if v.id in IdSet(p) then p else p + [v]
  }

  lemma IdSetAppend(q: seq<Version>, v: Version)
    ensures IdSet(q + [v]) == IdSet(q) + {v.id}
  {
    var s := q + [v];
    forall id | id in IdSet(s) ensures id in IdSet(q) + {v.id} {
      var k :| 0 <= k < |s| && s[k].id == id;
      if k < |q| { assert s[k] == q[k]; }
    }
    forall id | id in IdSet(q) ensures id in IdSet(s) {
      var k :| 0 <= k < |q| && q[k].id == id;
      assert s[k] == q[k];
    }
    assert s[|q|] == v;
  }

  /** A version whose id is new keeps the ids distinct. */
  lemma DistinctAppend(p: seq<Version>, v: Version)
    requires DistinctIds(p) && v.id !in IdSet(p)
    ensures DistinctIds(p + [v])
  {
    var r := p + [v];
    forall i, j | 0 <= i < j < |r| ensures r[i].id != r[j].id {
      assert r[i] == p[i];
      if j < |p| {
        assert r[j] == p[j];
      } else {
        assert p[i].id in IdSet(p);
      }
    }
  }

  /** The de-duplicated list has distinct ids. */
  lemma {:induction false} DedupDistinct(vs: seq<Version>)
    ensures DistinctIds(Dedup(vs))
    decreases |vs|
  {
    if |vs| > 0 {
      var q := vs[..|vs| - 1];
      var v := vs[|vs| - 1];
      DedupDistinct(q);
      if v.id !in IdSet(Dedup(q)) {
        DistinctAppend(Dedup(q), v);
      }
    }
  }

  /** The de-duplicated list has distinct ids, the same ids as the input,
      and so as many versions as the input has distinct ids. */
  lemma {:induction false} DedupIds(vs: seq<Version>)
    ensures IdSet(Dedup(vs)) == IdSet(vs)
    ensures DistinctIds(Dedup(vs))
    ensures |Dedup(vs)| == |IdSet(vs)|
    decreases |vs|
  {
    DedupDistinct(vs);
    if |vs| > 0 {
      var q := vs[..|vs| - 1];
      var v := vs[|vs| - 1];
      var p := Dedup(q);
      DedupIds(q);
      assert vs == q + [v];
      IdSetAppend(q, v);
      if v.id !in IdSet(p) {
        IdSetAppend(p, v);
      }
    }
  }

  /** Every version kept comes from the input. */
  lemma {:induction false} DedupFromInput(vs: seq<Version>)
    ensures forall i :: 0 <= i < |Dedup(vs)| ==> Dedup(vs)[i] in vs
    decreases |vs|
  {
    if |vs| > 0 {
      var n := |vs| - 1;
      var q := vs[..n];
      DedupFromInput(q);
      forall x | x in Dedup(q) ensures x in vs {
        var k :| 0 <= k < n && q[k] == x;
        assert vs[k] == x;
      }
    }
  }

  /** Every first occurrence of an id is kept: later duplicates are the
      ones dropped. */
  lemma {:induction false} DedupFirstOccurrences(vs: seq<Version>)
    ensures forall k :: 0 <= k < |vs| && (forall m :: 0 <= m < k ==> vs[m].id != vs[k].id)
                        ==> vs[k] in Dedup(vs)
    decreases |vs|
  {
    if |vs| > 0 {
      var n := |vs| - 1;
      var q := vs[..n];
      var v := vs[n];
      var p := Dedup(q);
      DedupFirstOccurrences(q);
      DedupIds(q);
      forall k | 0 <= k < |vs| && (forall m :: 0 <= m < k ==> vs[m].id != vs[k].id)
        ensures vs[k] in Dedup(vs)
      {
        if k < n {
          assert q[k] == vs[k];
          assert forall m :: 0 <= m < k ==> q[m].id != q[k].id;
        } else {
          assert v.id !in IdSet(q);
        }
      }
    }
  }

  /** Every version kept comes from the input, and every first occurrence
      of an id is kept: later duplicates are the ones dropped. */
  lemma DedupKeepsFirst(vs: seq<Version>)
    ensures forall i :: 0 <= i < |Dedup(vs)| ==> Dedup(vs)[i] in vs
    ensures forall k :: 0 <= k < |vs| && (forall m :: 0 <= m < k ==> vs[m].id != vs[k].id)
                        ==> vs[k] in Dedup(vs)
  {
    DedupFromInput(vs);
    DedupFirstOccurrences(vs);
  }

  // ---------------------------------------------------------------------
  // Grouping by topic

  function TopicIndex(gs: seq<WorkflowGroup>, t: string): (r: Option<nat>)
    ensures r.Some? ==> r.value < |gs| && gs[r.value].topic == t
    ensures r.Some? ==> forall i :: 0 <= i < r.value ==> gs[i].topic != t
    ensures r.None? ==> forall i :: 0 <= i < |gs| ==> gs[i].topic != t
  {
    Seqs.FindIndex(gs, (g: WorkflowGroup) => g.topic == t)
  }

  /** Group lists with the same topics in the same places find the same
      index for every topic. */
  lemma TopicIndexSameTopics(gs: seq<WorkflowGroup>, hs: seq<WorkflowGroup>, t: string)
    requires |gs| == |hs| && forall i :: 0 <= i < |gs| ==> gs[i].topic == hs[i].topic
    ensures TopicIndex(gs, t) == TopicIndex(hs, t)
  {
    var a, b := TopicIndex(gs, t), TopicIndex(hs, t);
    if a.Some? {
      assert hs[a.value].topic == t;
      assert gs[b.value].topic == t;
    }
  }

  /** The index of a topic after one more group is appended. */
  lemma TopicIndexAppend(gs: seq<WorkflowGroup>, g: WorkflowGroup, t: string)
    ensures TopicIndex(gs + [g], t)
         == if TopicIndex(gs, t).Some? then TopicIndex(gs, t) else if g.topic == t then Some(|gs|) else None
  {
    var r := gs + [g];
    var a, b := TopicIndex(gs, t), TopicIndex(r, t);
    if a.Some? {
      assert r[a.value].topic == t;
      if b.value < |gs| {
        assert gs[b.value].topic == t;
      }
      assert !(a.value < b.value) && !(b.value < a.value);
    } else {
      assert r[|gs|] == g;
    }
  }

  /** Files one version: pushed onto the group of its topic, or into a new
      group appended at the end. */
  function AddToGroups(gs: seq<WorkflowGroup>, v: Version): seq<WorkflowGroup>
  {
    var t := TopicOf(v);
    match TopicIndex(gs, t)
    case Some(i) => gs[i := gs[i].(versions := gs[i].versions + [v])]
    case None => gs + [WorkflowGroup(t, t, [v])]
  }

  /** The groups in the order their topics first appear. */
  function GroupAll(d: seq<Version>): seq<WorkflowGroup>
    decreases |d|
  {
    if |d| == 0 then [] else AddToGroups(GroupAll(d[..|d| - 1]), d[|d| - 1])
  }

  /** The first version of `d` filed under topic `t`. */
  function FirstOfTopic(d: seq<Version>, t: string): Option<Version>
  {
    match Seqs.FindIndex(d, (v: Version) => TopicOf(v) == t)
    case Some(k) => Some(d[k])
    case None => None
  }

  /** All versions held by the groups, with repetitions. */
  ghost function AllVersions(gs: seq<WorkflowGroup>): multiset<Version>
  {
    if |gs| == 0 then multiset{} else multiset(gs[0].versions) + AllVersions(gs[1..])
  }

  ghost predicate DistinctTopics(gs: seq<WorkflowGroup>)
  {
    forall i, j :: 0 <= i < j < |gs| ==> gs[i].topic != gs[j].topic
  }

  /** Each group is non-empty, named after its topic, and holds only
      versions of that topic. */
  ghost predicate GroupShape(g: WorkflowGroup)
  {
    |g.versions| > 0 && g.workflowId == g.topic
    && forall k :: 0 <= k < |g.versions| ==> TopicOf(g.versions[k]) == g.topic
  }

  ghost predicate Shaped(gs: seq<WorkflowGroup>)
  {
    DistinctTopics(gs) && forall i :: 0 <= i < |gs| ==> GroupShape(gs[i])
  }

  /** Every topic of `d` has a group. */
  ghost predicate HasGroups(gs: seq<WorkflowGroup>, d: seq<Version>)
  {
    forall k :: 0 <= k < |d| ==> TopicIndex(gs, TopicOf(d[k])).Some?
  }

  /** Each group starts with the first version of `d` of its topic. */
  ghost predicate OpenedByFirst(gs: seq<WorkflowGroup>, d: seq<Version>)
  {
    forall i :: 0 <= i < |gs| ==> 0 < |gs[i].versions| && FirstOfTopic(d, gs[i].topic) == Some(gs[i].versions[0])
  }

  ghost predicate Covers(gs: seq<WorkflowGroup>, d: seq<Version>)
  {
    HasGroups(gs, d) && OpenedByFirst(gs, d)
  }

  lemma {:induction false} AllVersionsAppend(gs: seq<WorkflowGroup>, g: WorkflowGroup)
    ensures AllVersions(gs + [g]) == AllVersions(gs) + multiset(g.versions)
  {
    if |gs| > 0 {
      assert (gs + [g])[1..] == gs[1..] + [g];
      AllVersionsAppend(gs[1..], g);
    }
  }

  lemma {:induction false} AllVersionsUpdate(gs: seq<WorkflowGroup>, i: nat, h: WorkflowGroup)
    requires i < |gs|
    ensures AllVersions(gs[i := h]) + multiset(gs[i].versions) == AllVersions(gs) + multiset(h.versions)
  {
    var r := gs[i := h];
    if i == 0 {
      assert r[1..] == gs[1..];
    } else {
      assert r[1..] == gs[1..][i - 1 := h];
      assert gs[1..][i - 1] == gs[i];
      assert r[0] == gs[0];
      AllVersionsUpdate(gs[1..], i - 1, h);
      var a, b, c, e := multiset(gs[0].versions), AllVersions(gs[1..][i - 1 := h]), multiset(gs[i].versions), multiset(h.versions);
      assert b + c == AllVersions(gs[1..]) + e;
      assert AllVersions(r) == a + b;
      assert AllVersions(gs) == a + AllVersions(gs[1..]);
      assert (a + b) + c == a + (b + c);
    }
  }

  lemma MultisetCancel<T>(a: multiset<T>, b: multiset<T>, c: multiset<T>)
    requires a + c == b + c
    ensures a == b
  {
    assert forall x :: a[x] == (a + c)[x] - c[x];
    assert forall x :: b[x] == (b + c)[x] - c[x];
  }

  lemma FirstOfTopicAppend(d: seq<Version>, v: Version, t: string)
    ensures FirstOfTopic(d + [v], t)
         == if FirstOfTopic(d, t).Some? then FirstOfTopic(d, t)
            else if TopicOf(v) == t then Some(v) else None
  {
    Seqs.FindIndexAppend(d, v, (w: Version) => TopicOf(w) == t);
  }

  /** Filing one more version keeps the groups well formed. */
  lemma AddToGroupsShaped(gs: seq<WorkflowGroup>, v: Version)
    requires Shaped(gs)
    ensures Shaped(AddToGroups(gs, v))
  {
    var t := TopicOf(v);
    match TopicIndex(gs, t)
    case Some(i) =>
      var h := gs[i].(versions := gs[i].versions + [v]);
      assert AddToGroups(gs, v) == gs[i := h];
      assert GroupShape(h);
    case None =>
  }

  /** Filing one more version adds exactly that version to the groups. */
  lemma AddToGroupsVersions(gs: seq<WorkflowGroup>, v: Version)
    ensures AllVersions(AddToGroups(gs, v)) == AllVersions(gs) + multiset{v}
  {
    var t := TopicOf(v);
    match TopicIndex(gs, t)
    case Some(i) =>
      var h := gs[i].(versions := gs[i].versions + [v]);
      var r := gs[i := h];
      assert AddToGroups(gs, v) == r;
      AllVersionsUpdate(gs, i, h);
      var c := multiset(gs[i].versions);
      assert multiset(h.versions) == c + multiset{v};
      assert AllVersions(r) + c == (AllVersions(gs) + multiset{v}) + c;
      MultisetCancel(AllVersions(r), AllVersions(gs) + multiset{v}, c);
    case None =>
      AllVersionsAppend(gs, WorkflowGroup(t, t, [v]));
  }

  lemma AddToGroupsCoversTopics(gs: seq<WorkflowGroup>, d: seq<Version>, v: Version)
    requires HasGroups(gs, d)
    ensures HasGroups(AddToGroups(gs, v), d + [v])
  {
    var t := TopicOf(v);
    var r := AddToGroups(gs, v);
    var d' := d + [v];
    assert forall i :: 0 <= i < |gs| ==> r[i].topic == gs[i].topic;
    forall k | 0 <= k < |d'| ensures TopicIndex(r, TopicOf(d'[k])).Some? {
      if k < |d| {
        assert d'[k] == d[k];
        var i := TopicIndex(gs, TopicOf(d[k])).value;
        assert r[i].topic == TopicOf(d[k]);
      } else {
        match TopicIndex(gs, t)
        case Some(i) => assert r[i].topic == t;
        case None => assert r[|gs|].topic == t;
      }
    }
  }

  lemma AddToGroupsCoversFirst(gs: seq<WorkflowGroup>, d: seq<Version>, v: Version)
    requires HasGroups(gs, d) && OpenedByFirst(gs, d)
    ensures OpenedByFirst(AddToGroups(gs, v), d + [v])
  {
    var t := TopicOf(v);
    var r := AddToGroups(gs, v);
    var d' := d + [v];
    match TopicIndex(gs, t)
    case Some(i) =>
      forall j | 0 <= j < |r| ensures 0 < |r[j].versions| && FirstOfTopic(d', r[j].topic) == Some(r[j].versions[0]) {
        assert r[j].topic == gs[j].topic && r[j].versions[0] == gs[j].versions[0];
        FirstOfTopicAppend(d, v, r[j].topic);
      }
    case None =>
      assert FirstOfTopic(d, t).None? by {
        forall k | 0 <= k < |d| ensures TopicOf(d[k]) != t {
          assert TopicIndex(gs, TopicOf(d[k])).Some?;
        }
      }
      forall j | 0 <= j < |r| ensures 0 < |r[j].versions| && FirstOfTopic(d', r[j].topic) == Some(r[j].versions[0]) {
        FirstOfTopicAppend(d, v, r[j].topic);
        if j < |gs| {
          assert r[j] == gs[j];
        }
      }
  }

  /** The groups built from `d` are non-empty, named after their topic,
      hold only versions of it, and no two share a topic. */
  lemma {:induction false} GroupAllShaped(d: seq<Version>)
    ensures Shaped(GroupAll(d))
    decreases |d|
  {
    if |d| > 0 {
      GroupAllShaped(d[..|d| - 1]);
      AddToGroupsShaped(GroupAll(d[..|d| - 1]), d[|d| - 1]);
    }
  }

  /** The groups built from `d` cover every topic of `d`. */
  lemma {:induction false} GroupAllHasGroups(d: seq<Version>)
    ensures HasGroups(GroupAll(d), d)
    decreases |d|
  {
    if |d| > 0 {
      var p := d[..|d| - 1];
      var v := d[|d| - 1];
      assert d == p + [v];
      GroupAllHasGroups(p);
      assert GroupAll(d) == AddToGroups(GroupAll(p), v);
      AddToGroupsCoversTopics(GroupAll(p), p, v);
    }
  }

  /** Each group built from `d` starts with the first version of its topic. */
  lemma {:induction false} GroupAllOpenedByFirst(d: seq<Version>)
    ensures OpenedByFirst(GroupAll(d), d)
    decreases |d|
  {
    if |d| > 0 {
      var p := d[..|d| - 1];
      var v := d[|d| - 1];
      assert d == p + [v];
      GroupAllOpenedByFirst(p);
      GroupAllHasGroups(p);
      assert GroupAll(d) == AddToGroups(GroupAll(p), v);
      AddToGroupsCoversFirst(GroupAll(p), p, v);
    }
  }

  lemma GroupAllCovers(d: seq<Version>)
    ensures Covers(GroupAll(d), d)
  {
    GroupAllHasGroups(d);
    GroupAllOpenedByFirst(d);
  }

  /** The groups built from `d` together hold exactly the versions of `d`. */
  lemma {:induction false} GroupAllVersions(d: seq<Version>)
    ensures AllVersions(GroupAll(d)) == multiset(d)
    decreases |d|
  {
    if |d| > 0 {
      var p := d[..|d| - 1];
      var v := d[|d| - 1];
      assert d == p + [v];
      GroupAllVersions(p);
      assert GroupAll(d) == AddToGroups(GroupAll(p), v);
      AddToGroupsVersions(GroupAll(p), v);
    }
  }

  // ---------------------------------------------------------------------
  // Ordering

  function CreatedAt(v: Version): int
  {
    v.createdAt
  }

  /** The key of the group sort: the creation time of the group's first
      version at the time of sorting. */
  function FirstCreated(g: WorkflowGroup): int
  {
    if |g.versions| > 0 then g.versions[0].createdAt else 0
  }

  function SortGroup(g: WorkflowGroup): WorkflowGroup
  {
    g.(versions := Sorting.SortDesc(g.versions, CreatedAt))
  }

  function SortEach(gs: seq<WorkflowGroup>): seq<WorkflowGroup>
  {
    seq(|gs|, k requires 0 <= k < |gs| => SortGroup(gs[k]))
  }

  /** What the panel lists: groups ordered by their first version, then
      each group's versions ordered newest first. */
  function Grouped(vs: seq<Version>): seq<WorkflowGroup>
  {
    SortEach(Sorting.SortDesc(GroupAll(Dedup(vs)), FirstCreated))
  }

  lemma {:induction false} AllVersionsInsert(x: WorkflowGroup, s: seq<WorkflowGroup>)
    ensures AllVersions(Sorting.InsertDesc(x, s, FirstCreated)) == multiset(x.versions) + AllVersions(s)
  {
    if |s| == 0 || FirstCreated(s[0]) <= FirstCreated(x) {
      assert ([x] + s)[1..] == s;
    } else {
      var r := Sorting.InsertDesc(x, s[1..], FirstCreated);
      AllVersionsInsert(x, s[1..]);
      assert ([s[0]] + r)[0] == s[0] && ([s[0]] + r)[1..] == r;
    }
  }

  lemma {:induction false} AllVersionsSort(s: seq<WorkflowGroup>)
    ensures AllVersions(Sorting.SortDesc(s, FirstCreated)) == AllVersions(s)
  {
    if |s| > 0 {
      AllVersionsSort(s[1..]);
      AllVersionsInsert(s[0], Sorting.SortDesc(s[1..], FirstCreated));
    }
  }

  /** Groups holding the same versions, position by position, hold the
      same versions together. */
  lemma {:induction false} AllVersionsPointwise(t: seq<WorkflowGroup>, s: seq<WorkflowGroup>)
    requires |t| == |s|
    requires forall k :: 0 <= k < |s| ==> multiset(t[k].versions) == multiset(s[k].versions)
    ensures AllVersions(t) == AllVersions(s)
  {
    if |s| > 0 {
      assert forall k :: 0 <= k < |s| - 1 ==> t[1..][k] == t[k + 1] && s[1..][k] == s[k + 1];
      AllVersionsPointwise(t[1..], s[1..]);
    }
  }

  lemma AllVersionsSortEach(s: seq<WorkflowGroup>)
    ensures AllVersions(SortEach(s)) == AllVersions(s)
  {
    var t := SortEach(s);
    forall k | 0 <= k < |s| ensures multiset(t[k].versions) == multiset(s[k].versions) {
      assert t[k] == SortGroup(s[k]);
    }
    AllVersionsPointwise(t, s);
  }

  /** Sorting a group's versions keeps its shape. */
  lemma SortGroupShape(g: WorkflowGroup)
    requires GroupShape(g)
    ensures GroupShape(SortGroup(g))
    ensures SortGroup(g).topic == g.topic
  {
    var s := SortGroup(g).versions;
    forall k | 0 <= k < |s| ensures TopicOf(s[k]) == g.topic {
      assert s[k] in multiset(g.versions);
    }
  }

  /** The group sort only reorders the groups. */
  lemma SortedGroupsMembers(gs: seq<WorkflowGroup>)
    ensures var s := Sorting.SortDesc(gs, FirstCreated);
      (forall i :: 0 <= i < |s| ==> s[i] in gs) && (forall i :: 0 <= i < |gs| ==> gs[i] in s)
  {
    var s := Sorting.SortDesc(gs, FirstCreated);
    forall i | 0 <= i < |s| ensures s[i] in gs {
      assert s[i] in multiset(s);
    }
    forall i | 0 <= i < |gs| ensures gs[i] in s {
      assert gs[i] in multiset(gs);
    }
  }

  function GroupTopic(g: WorkflowGroup): string
  {
    g.topic
  }

  /** The group sort keeps the groups well formed. */
  lemma SortedGroupsShaped(gs: seq<WorkflowGroup>)
    requires Shaped(gs)
    ensures Shaped(Sorting.SortDesc(gs, FirstCreated))
  {
    var s := Sorting.SortDesc(gs, FirstCreated);
    assert Sorting.DistinctBy(gs, GroupTopic) by {
      forall i, j | 0 <= i < j < |gs| ensures GroupTopic(gs[i]) != GroupTopic(gs[j]) {
      }
    }
    Sorting.PermutationKeepsDistinct(gs, s, GroupTopic);
    SortedGroupsMembers(gs);
    forall i, j | 0 <= i < j < |s| ensures s[i].topic != s[j].topic {
      assert GroupTopic(s[i]) != GroupTopic(s[j]);
    }
  }

  /** A group in the list gives its topic an index. */
  lemma TopicIndexMember(gs: seq<WorkflowGroup>, g: WorkflowGroup)
    requires g in gs
    ensures TopicIndex(gs, g.topic).Some?
  {
    var j :| 0 <= j < |gs| && gs[j] == g;
  }

  /** A group in a list opened by first versions starts with the first
      version of its topic. */
  lemma OpenedByFirstMember(gs: seq<WorkflowGroup>, d: seq<Version>, g: WorkflowGroup)
    requires OpenedByFirst(gs, d) && g in gs
    ensures 0 < |g.versions| && FirstOfTopic(d, g.topic) == Some(g.versions[0])
  {
    var j :| 0 <= j < |gs| && gs[j] == g;
  }

  /** After the group sort every topic of `d` still has a group, and every
      group still starts with the first version of its topic. */
  lemma SortedGroupsCover(gs: seq<WorkflowGroup>, d: seq<Version>)
    requires Covers(gs, d)
    ensures Covers(Sorting.SortDesc(gs, FirstCreated), d)
  {
    var s := Sorting.SortDesc(gs, FirstCreated);
    SortedGroupsMembers(gs);
    forall k | 0 <= k < |d| ensures TopicIndex(s, TopicOf(d[k])).Some? {
      var i := TopicIndex(gs, TopicOf(d[k])).value;
      TopicIndexMember(s, gs[i]);
    }
    forall i | 0 <= i < |s|
      ensures 0 < |s[i].versions| && FirstOfTopic(d, s[i].topic) == Some(s[i].versions[0])
    {
      OpenedByFirstMember(gs, d, s[i]);
    }
  }

  /** Each distinct id is shown exactly once: the groups together hold the
      de-duplicated versions, whose ids are distinct and are all the ids of
      the input. */
  lemma GroupedVersions(vs: seq<Version>)
    ensures AllVersions(Grouped(vs)) == multiset(Dedup(vs))
    ensures DistinctIds(Dedup(vs)) && IdSet(Dedup(vs)) == IdSet(vs)
    ensures |AllVersions(Grouped(vs))| == |IdSet(vs)|
  {
    var d := Dedup(vs);
    var g := GroupAll(d);
    GroupAllVersions(d);
    AllVersionsSort(g);
    AllVersionsSortEach(Sorting.SortDesc(g, FirstCreated));
    DedupIds(vs);
  }

  /** Every group is non-empty and named after its topic, holds only
      versions of that topic, and no two groups share a topic; every kept
      version's topic has a group. */
  lemma GroupedTopics(vs: seq<Version>)
    ensures var gs := Grouped(vs);
      DistinctTopics(gs) && (forall i :: 0 <= i < |gs| ==> GroupShape(gs[i]))
    ensures var gs := Grouped(vs); var d := Dedup(vs);
      forall k :: 0 <= k < |d| ==> TopicIndex(gs, TopicOf(d[k])).Some?
  {
    var d := Dedup(vs);
    var g := GroupAll(d);
    GroupAllShaped(d); GroupAllCovers(d);
    SortedGroupsShaped(g);
    SortedGroupsCover(g, d);
    var s := Sorting.SortDesc(g, FirstCreated);
    var gs := Grouped(vs);
    forall i | 0 <= i < |gs| ensures GroupShape(gs[i]) && gs[i].topic == s[i].topic {
      SortGroupShape(s[i]);
    }
    forall k | 0 <= k < |d| ensures TopicIndex(gs, TopicOf(d[k])).Some? {
      var x := TopicIndex(s, TopicOf(d[k])).value;
      assert gs[x].topic == s[x].topic;
    }
  }

  /** Versions inside a group are newest first. */
  lemma GroupedInnerOrder(vs: seq<Version>)
    ensures var gs := Grouped(vs);
      forall i :: 0 <= i < |gs| ==> Sorting.SortedDesc(gs[i].versions, CreatedAt)
  {
    var s := Sorting.SortDesc(GroupAll(Dedup(vs)), FirstCreated);
    var gs := Grouped(vs);
    forall i | 0 <= i < |gs| ensures Sorting.SortedDesc(gs[i].versions, CreatedAt) {
      Sorting.SortDescSorted(s[i].versions, CreatedAt);
    }
  }

  /** Groups sorted by their first version, each opened by the first
      version of its topic, are ordered by those first versions. */
  lemma SortedOpenedOrder(s: seq<WorkflowGroup>, d: seq<Version>)
    requires OpenedByFirst(s, d) && Sorting.SortedDesc(s, FirstCreated)
    ensures forall i :: 0 <= i < |s| ==> FirstOfTopic(d, s[i].topic).Some?
    ensures forall i, j :: 0 <= i < j < |s| ==>
              FirstOfTopic(d, s[i].topic).value.createdAt >= FirstOfTopic(d, s[j].topic).value.createdAt
  {
    forall i, j | 0 <= i < j < |s|
      ensures FirstOfTopic(d, s[i].topic).value.createdAt >= FirstOfTopic(d, s[j].topic).value.createdAt
    {
      assert FirstCreated(s[i]) >= FirstCreated(s[j]);
    }
  }

  /** Sorting inside the groups keeps every group's topic in place. */
  lemma SortEachTopics(s: seq<WorkflowGroup>)
    ensures |SortEach(s)| == |s|
    ensures forall i :: 0 <= i < |s| ==> SortEach(s)[i].topic == s[i].topic
  {
  }

  /** Groups are ordered newest first by the version that opened them (the
      first version of their topic in the de-duplicated list), because the
      groups are sorted before their contents are. */
  lemma GroupedOuterOrder(vs: seq<Version>)
    ensures var gs := Grouped(vs); var d := Dedup(vs);
      (forall i :: 0 <= i < |gs| ==> FirstOfTopic(d, gs[i].topic).Some?)
      && forall i, j :: 0 <= i < j < |gs| ==>
           FirstOfTopic(d, gs[i].topic).value.createdAt >= FirstOfTopic(d, gs[j].topic).value.createdAt
  {
    var d := Dedup(vs);
    var g := GroupAll(d);
    GroupAllCovers(d);
    SortedGroupsCover(g, d);
    var s := Sorting.SortDesc(g, FirstCreated);
    Sorting.SortDescSorted(g, FirstCreated);
    SortedOpenedOrder(s, d);
    SortEachTopics(s);
  }

  // ---------------------------------------------------------------------
  // The grouping loop

  /** The grouping the panel computes: filing by topic, then the group
      sort, then the sort inside each group. */
  method GroupVersions(versions: seq<Version>) returns (groups: seq<WorkflowGroup>)
    ensures groups == Grouped(versions)
  {
    groups := FileByTopic(versions);
    groups := Sorting.SortDesc(groups, FirstCreated);
    groups := SortEachGroup(groups);
  }

  /** The `forEach` that sorts each group's versions newest first. */
  method SortEachGroup(gs: seq<WorkflowGroup>) returns (groups: seq<WorkflowGroup>)
    ensures groups == SortEach(gs)
  {
    groups := gs;
    var g := 0;
    while g < |groups|
      invariant 0 <= g <= |groups| && |groups| == |gs|
      invariant forall k :: 0 <= k < g ==> groups[k] == SortGroup(gs[k])
      invariant forall k :: g <= k < |groups| ==> groups[k] == gs[k]
    {
      groups := groups[g := groups[g].(versions := Sorting.SortDesc(groups[g].versions, CreatedAt))];
      g := g + 1;
    }
  }

  /** The `forEach` that skips ids already seen and files each new version
      under its topic. */
  method FileByTopic(versions: seq<Version>) returns (groups: seq<WorkflowGroup>)
    ensures groups == GroupAll(Dedup(versions))
  {
    groups := [];
    var workflowMap: map<string, nat> := map[];
    var addedVersionIds: set<string> := {};
    var n := 0;
    while n < |versions|
      invariant 0 <= n <= |versions|
      invariant addedVersionIds == IdSet(Dedup(versions[..n]))
      invariant groups == GroupAll(Dedup(versions[..n]))
      invariant MapMatches(workflowMap, groups)
    {
      var version := versions[n];
      DedupStep(versions, n);
      if version.id !in addedVersionIds {
        addedVersionIds := addedVersionIds + {version.id};
        groups, workflowMap := FileVersion(groups, workflowMap, version);
      }
      n := n + 1;
    }
    assert versions[..n] == versions;
  }

  /** Files one version under its topic, opening a group the first time
      the topic is met, and keeps the topic map in step. */
  method FileVersion(groups: seq<WorkflowGroup>, workflowMap: map<string, nat>, version: Version)
    returns (groups': seq<WorkflowGroup>, workflowMap': map<string, nat>)
    requires MapMatches(workflowMap, groups)
    ensures groups' == AddToGroups(groups, version)
    ensures MapMatches(workflowMap', groups')
  {
    var topic := TopicOf(version);
    groups' := groups;
    workflowMap' := workflowMap;
    if topic in workflowMap {
      FileStepKnown(groups, workflowMap, version);
    } else {
      FileStepNew(groups, workflowMap, version);
      workflowMap' := workflowMap[topic := |groups|];
      groups' := groups + [WorkflowGroup(topic, topic, [])];
    }
    var i := workflowMap'[topic];
    groups' := groups'[i := groups'[i].(versions := groups'[i].versions + [version])];
  }

  /** The topic map holds exactly the topics of the groups, each with the
      index of its group. */
  ghost predicate MapMatches(m: map<string, nat>, gs: seq<WorkflowGroup>)
  {
    forall t :: TopicIndex(gs, t) == if t in m then Some(m[t]) else None
  }

  /** One more input version, seen or not. */
  lemma DedupStep(vs: seq<Version>, n: nat)
    requires n < |vs|
    ensures Dedup(vs[..n + 1])
         == if vs[n].id in IdSet(Dedup(vs[..n])) then Dedup(vs[..n]) else Dedup(vs[..n]) + [vs[n]]
    ensures vs[n].id !in IdSet(Dedup(vs[..n])) ==>
         IdSet(Dedup(vs[..n + 1])) == IdSet(Dedup(vs[..n])) + {vs[n].id}
    ensures GroupAll(Dedup(vs[..n + 1]))
         == if vs[n].id in IdSet(Dedup(vs[..n])) then GroupAll(Dedup(vs[..n]))
            else AddToGroups(GroupAll(Dedup(vs[..n])), vs[n])
  {
    assert vs[..n + 1][..n] == vs[..n];
    IdSetAppend(Dedup(vs[..n]), vs[n]);
    var p := Dedup(vs[..n]);
    if vs[n].id !in IdSet(p) {
      assert (p + [vs[n]])[..|p|] == p;
    }
  }

  /** Filing a version whose topic is in the map pushes it onto that
      topic's group, as `AddToGroups` does, and the map stays in step. */
  lemma FileStepKnown(gs: seq<WorkflowGroup>, m: map<string, nat>, v: Version)
    requires MapMatches(m, gs) && TopicOf(v) in m
    ensures var i := m[TopicOf(v)];
      i < |gs| && gs[i := gs[i].(versions := gs[i].versions + [v])] == AddToGroups(gs, v)
    ensures MapMatches(m, AddToGroups(gs, v))
  {
    var t := TopicOf(v);
    assert TopicIndex(gs, t) == Some(m[t]);
    var r := AddToGroups(gs, v);
    forall u ensures TopicIndex(r, u) == if u in m then Some(m[u]) else None {
      TopicIndexSameTopics(gs, r, u);
      assert TopicIndex(gs, u) == if u in m then Some(m[u]) else None;
    }
  }

  /** Filing a version whose topic is not in the map opens a new group at
      the end, as `AddToGroups` does, and the map learns its index. */
  lemma FileStepNew(gs: seq<WorkflowGroup>, m: map<string, nat>, v: Version)
    requires MapMatches(m, gs) && TopicOf(v) !in m
    ensures var t := TopicOf(v); var gs1 := gs + [WorkflowGroup(t, t, [])];
      gs1[|gs| := gs1[|gs|].(versions := gs1[|gs|].versions + [v])] == AddToGroups(gs, v)
    ensures MapMatches(m[TopicOf(v) := |gs|], AddToGroups(gs, v))
  {
    var t := TopicOf(v);
    var gs1 := gs + [WorkflowGroup(t, t, [])];
    assert TopicIndex(gs, t) == None;
    var g := WorkflowGroup(t, t, [v]);
    var r := AddToGroups(gs, v);
    assert r == gs + [g];
    assert [] + [v] == [v];
    assert gs1[|gs| := gs1[|gs|].(versions := gs1[|gs|].versions + [v])] == r;
    var m1 := m[t := |gs|];
    forall u ensures TopicIndex(r, u) == if u in m1 then Some(m1[u]) else None {
      TopicIndexAppend(gs, g, u);
      assert TopicIndex(gs, u) == if u in m then Some(m[u]) else None;
    }
  }

  // ---------------------------------------------------------------------
  // Labels

  /** The relative time shown for a version created `diff` milliseconds
      ago. */
  datatype RelativeTime = JustNow | MinutesAgo(minutes: int) | HoursAgo(hours: int)
                        | DaysAgo(days: int) | CalendarDate

  function FormatTimestamp(diff: int): (r: RelativeTime)
    ensures r == JustNow <==> diff < 60000
    ensures r.MinutesAgo? ==> 1 <= r.minutes <= 59 && r.minutes * 60000 <= diff < (r.minutes + 1) * 60000
    ensures r.HoursAgo? ==> 1 <= r.hours <= 23 && r.hours * 3600000 <= diff < (r.hours + 1) * 3600000
    ensures r.DaysAgo? ==> 1 <= r.days <= 6 && r.days * 86400000 <= diff < (r.days + 1) * 86400000
    ensures r == CalendarDate <==> diff >= 604800000
    ensures r.MinutesAgo? <==> 60000 <= diff < 3600000
    ensures r.HoursAgo? <==> 3600000 <= diff < 86400000
    ensures r.DaysAgo? <==> 86400000 <= diff < 604800000
  {
    if diff < 60000 then JustNow
    else if diff < 3600000 then MinutesAgo(diff / 60000)
    else if diff < 86400000 then HoursAgo(diff / 3600000)
    else if diff < 604800000 then DaysAgo(diff / 86400000)
    else CalendarDate
  }

  /** The text of a relative time; the calendar date is formatted by the
      browser's locale. */
  function RelativeTimeText(r: RelativeTime, localeDate: string): string
  {
    match r
    case JustNow => "刚刚"
    case MinutesAgo(m) => (if m >= 0 then Text.NatToString(m) else "") + " 分钟前"
    case HoursAgo(h) => (if h >= 0 then Text.NatToString(h) else "") + " 小时前"
    case DaysAgo(d) => (if d >= 0 then Text.NatToString(d) else "") + " 天前"
    case CalendarDate => localeDate
  }

  /** Reads a shown relative time back: "刚刚", or a count followed by one
      of the three unit texts; any other text is a calendar date. */
  function ReadRelativeTime(s: string): RelativeTime
  {
    if s == "刚刚" then JustNow
    else if |s| > 4 && Text.EndsWith(s, " 分钟前") && Text.AllDigits(s[..|s| - 4]) then
      MinutesAgo(Text.DigitsToNat(s[..|s| - 4]))
    else if |s| > 4 && Text.EndsWith(s, " 小时前") && Text.AllDigits(s[..|s| - 4]) then
      HoursAgo(Text.DigitsToNat(s[..|s| - 4]))
    else if |s| > 3 && Text.EndsWith(s, " 天前") && Text.AllDigits(s[..|s| - 3]) then
      DaysAgo(Text.DigitsToNat(s[..|s| - 3]))
    else CalendarDate
  }

  /** Within the first week the text shown for a version's age reads back
      as its relative time: the count and the unit are both on display. */
  lemma ShownTimeRoundTrip(diff: int, localeDate: string)
    requires diff < 604800000
    ensures ReadRelativeTime(RelativeTimeText(FormatTimestamp(diff), localeDate)) == FormatTimestamp(diff)
  {
    var r := FormatTimestamp(diff);
    var s := RelativeTimeText(r, localeDate);
    match r
    case JustNow =>
    case MinutesAgo(m) =>
      var n := Text.NatToString(m);
      assert s == n + " 分钟前";
      assert s[..|s| - 4] == n && s[|s| - 4..] == " 分钟前";
      Text.NatToStringRoundTrip(m);
    case HoursAgo(h) =>
      var n := Text.NatToString(h);
      assert s == n + " 小时前";
      assert s[..|s| - 4] == n && s[|s| - 4..] == " 小时前";
      assert s[|s| - 4..][1] == '小';
      Text.NatToStringRoundTrip(h);
    case DaysAgo(d) =>
      var n := Text.NatToString(d);
      assert s == n + " 天前";
      assert s[..|s| - 3] == n && s[|s| - 3..] == " 天前";
      assert s[|s| - 4..][1] == ' ';
      Text.NatToStringRoundTrip(d);
  }

  /** Two ages within the first week that fall in different bands or
      counts are never shown alike. */
  lemma ShownTimesDiffer(diff1: int, diff2: int, localeDate: string)
    requires diff1 < 604800000 && diff2 < 604800000
    requires FormatTimestamp(diff1) != FormatTimestamp(diff2)
    ensures RelativeTimeText(FormatTimestamp(diff1), localeDate) != RelativeTimeText(FormatTimestamp(diff2), localeDate)
  {
    ShownTimeRoundTrip(diff1, localeDate);
    ShownTimeRoundTrip(diff2, localeDate);
  }

  /** "Generated by optimisation" or "saved by hand". */
  function TypeLabel(kind: Kind): (r: string)
    ensures kind == Optimize ==> r == "优化生成"
    ensures kind == Save ==> r == "手动保存"
  {
    if kind == Optimize then "优化生成" else "手动保存"
  }

  // ---------------------------------------------------------------------
  // Panel state

  /** Flipping the membership of one workflow id. */
  function Toggle(s: set<string>, x: string): (r: set<string>)
    ensures x in r <==> x !in s
    ensures forall y :: y != x ==> (y in r <==> y in s)
  {
    if x in s then s - {x} else s + {x}
  }

  /** Toggling twice gives back the set. */
  lemma ToggleTwice(s: set<string>, x: string)
    ensures Toggle(Toggle(s, x), x) == s
  {
  }

  /** A call of the rename callback. */
  datatype Rename = Rename(versionId: string, newName: string)

  class HistoryPanel {
    var collapsedGroups: set<string>
    var editingVersionId: Option<string>
    var editingName: string

    constructor ()
      ensures collapsedGroups == {} && editingVersionId == None && editingName == ""
    {
      collapsedGroups := {};
      editingVersionId := None;
      editingName := "";
    }

    method ToggleGroup(workflowId: string)
      modifies this
      ensures collapsedGroups == Toggle(old(collapsedGroups), workflowId)
      ensures editingVersionId == old(editingVersionId) && editingName == old(editingName)
    {
      var newCollapsed := collapsedGroups;
      if workflowId in newCollapsed {
        newCollapsed := newCollapsed - {workflowId};
      } else {
        newCollapsed := newCollapsed + {workflowId};
      }
      collapsedGroups := newCollapsed;
    }

    method StartEdit(versionId: string, currentName: string)
      modifies this
      ensures editingVersionId == Some(versionId) && editingName == currentName
      ensures collapsedGroups == old(collapsedGroups)
    {
      editingVersionId := Some(versionId);
      editingName := currentName;
    }

    /** Confirming the editor: the callback, when the page passes one, gets
        the trimmed name, and only when that is not empty; the editor is
        closed either way. */
    method SaveEdit(versionId: string, hasRenameCallback: bool) returns (call: Option<Rename>)
      modifies this
      ensures call.Some? <==> hasRenameCallback && Text.Trim(old(editingName)) != ""
      ensures call.Some? ==> call.value == Rename(versionId, Text.Trim(old(editingName)))
      ensures editingVersionId == None && editingName == ""
      ensures collapsedGroups == old(collapsedGroups)
    {
      call := None;
      var trimmed := Text.Trim(editingName);
      if hasRenameCallback && trimmed != "" {
        call := Some(Rename(versionId, trimmed));
      }
      editingVersionId := None;
      editingName := "";
    }

    method CancelEdit()
      modifies this
      ensures editingVersionId == None && editingName == ""
      ensures collapsedGroups == old(collapsedGroups)
    {
      editingVersionId := None;
      editingName := "";
    }
  }
}
