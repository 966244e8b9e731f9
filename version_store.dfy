/** What the two in-memory version managers share: the version type and
    its title label, and the list operations on the per-user dictionary
    `user_id -> [versions]`, newest first. Python dictionaries iterate in
    insertion order, so a manager keeps the order its users were first
    seen in next to the dictionary. */
module VersionStore {
  import opened Wrappers
  import Seqs
  import Sorting
  import Text

  datatype VersionType = SAVE | OPTIMIZE

  /** The type half of `formatted_title`. */
  function TitleType(t: VersionType): (s: string)
    ensures s == "保存" <==> t == SAVE
    ensures t == OPTIMIZE <==> s == "优化"
  {
    assert "优化"[0] != "保存"[0];
    match t
    case SAVE => "保存"
    case OPTIMIZE => "优化"
  }

  /** `d.get(u, [])`. */
  function ListOf<T>(d: map<string, seq<T>>, u: string): seq<T>
  {
    if u in d then d[u] else []
  }

  /** `lst.insert(0, x)`, then `lst[:max]` if the list grew past `max`. */
  function PushFront<T>(x: T, s: seq<T>, max: nat): (r: seq<T>)
    ensures |r| == if |s| + 1 > max then max else |s| + 1
    ensures max > 0 ==> r[0] == x
    ensures forall k :: 1 <= k < |r| ==> r[k] == s[k - 1]
  {
    var l := [x] + s;
    if |l| > max then l[..max] else l
  }

  /** The first element satisfying `p` when the lists are scanned user by
      user in `order` (`for lst in d.values(): for v in lst: ...`). */
  function FindAcross<T>(order: seq<string>, d: map<string, seq<T>>, p: T -> bool): (r: Option<T>)
    ensures r.Some? ==> p(r.value)
    ensures r.Some? ==> exists i, k :: 0 <= i < |order| && 0 <= k < |ListOf(d, order[i])|
                                      && ListOf(d, order[i])[k] == r.value
    ensures r.None? <==> forall i, k :: 0 <= i < |order| && 0 <= k < |ListOf(d, order[i])|
                                        ==> !p(ListOf(d, order[i])[k])
  {
    if |order| == 0 then None
    else
      var s := ListOf(d, order[0]);
      match Seqs.FindIndex(s, p)
      case Some(k) =>
        assert ListOf(d, order[0])[k] == s[k];
        Some(s[k])
      case None =>
        var r := FindAcross(order[1..], d, p);
        assert forall i :: 0 <= i < |order[1..]| ==> order[1..][i] == order[i + 1];
        r
  }

  /** Everything before `order[i]` is skipped by the scan when none of its
      lists has a match, so the scan picks up where it stands. */
  lemma {:induction false} FindAcrossFrom<T>(order: seq<string>, d: map<string, seq<T>>, p: T -> bool, i: nat)
    requires i < |order|
    requires forall k :: 0 <= k < |ListOf(d, order[i])| ==> !p(ListOf(d, order[i])[k])
    ensures FindAcross(order[i..], d, p) == FindAcross(order[i + 1..], d, p)
  {
    var o := order[i..];
    assert o[0] == order[i] && o[1..] == order[i + 1..];
  }

  /** The invariant of a manager: its key order lists exactly the
      dictionary's keys, once each; each list stays within the cap and
      holds only versions of its own user. */
  ghost predicate Owned<T>(d: map<string, seq<T>>, order: seq<string>, cap: nat, owner: T -> string)
  {
    Seqs.NoDuplicates(order)
    && (forall u :: u in d <==> u in order)
    && (forall u :: u in d ==> |d[u]| <= cap)
    && (forall u, k :: u in d && 0 <= k < |d[u]| ==> owner(d[u][k]) == u)
  }

  /** Saving a user's version keeps the dictionary and its key order in
      step: a new user is appended to the key order. */
  lemma KeepsOwned<T>(d: map<string, seq<T>>, order: seq<string>, cap: nat, owner: T -> string, userId: string, v: T)
    requires Owned(d, order, cap, owner)
    requires owner(v) == userId
    ensures Owned(d[userId := PushFront(v, ListOf(d, userId), cap)],
                  if userId in d then order else order + [userId], cap, owner)
  {
    var o1 := if userId in d then order else order + [userId];
    if userId !in d {
      forall i, j | 0 <= i < j < |o1| ensures o1[i] != o1[j] {
        if j == |order| {
          assert o1[i] == order[i];
        }
      }
    }
  }

  /** A version the scan finds is stored under its own user, and the scan
      finds one whenever any user holds a match. */
  lemma FoundIsStored<T>(d: map<string, seq<T>>, order: seq<string>, cap: nat, owner: T -> string, p: T -> bool)
    requires Owned(d, order, cap, owner)
    ensures var r := FindAcross(order, d, p);
      (r.None? <==> forall u, k :: u in d && 0 <= k < |d[u]| ==> !p(d[u][k]))
      && (r.Some? ==> owner(r.value) in d && r.value in d[owner(r.value)])
  {
    var r := FindAcross(order, d, p);
    if r.Some? {
      var i, k :| 0 <= i < |order| && 0 <= k < |ListOf(d, order[i])|
                  && ListOf(d, order[i])[k] == r.value;
      assert d[order[i]][k] == r.value;
    } else {
      forall u, k | u in d && 0 <= k < |d[u]| ensures !p(d[u][k]) {
        var i :| 0 <= i < |order| && order[i] == u;
        assert !p(ListOf(d, order[i])[k]);
      }
    }
  }

  /** The position of the first element satisfying `p`: the
      `for i, v in enumerate(lst)` loop with an early `return`. */
  method FirstMatch<T>(s: seq<T>, p: T -> bool) returns (r: Option<nat>)
    ensures r == Seqs.FindIndex(s, p)
  {
    var k := 0;
    while k < |s|
      invariant 0 <= k <= |s|
      invariant forall j :: 0 <= j < k ==> !p(s[j])
    {
      if p(s[k]) {
        return Some(k);
      }
      k := k + 1;
    }
    return None;
  }

  /** The nested loops of `get_version`: the first match, user by user. */
  method FindAcrossUsers<T>(order: seq<string>, d: map<string, seq<T>>, p: T -> bool) returns (r: Option<T>)
    ensures r == FindAcross(order, d, p)
  {
    var i := 0;
    while i < |order|
      invariant 0 <= i <= |order|
      invariant FindAcross(order, d, p) == FindAcross(order[i..], d, p)
    {
      var s := ListOf(d, order[i]);
      var k := FirstMatch(s, p);
      if k.Some? {
        assert order[i..][0] == order[i];
        return Some(s[k.value]);
      }
      FindAcrossFrom(order, d, p, i);
      i := i + 1;
    }
    assert order[i..] == [];
    return None;
  }

  /** The list without its first element satisfying `p`. */
  function RemoveFirst<T>(s: seq<T>, p: T -> bool): seq<T>
  {
    if |s| == 0 then []
    else if p(s[0]) then s[1..]
    else [s[0]] + RemoveFirst(s[1..], p)
  }

  /** Removing the first match deletes exactly the element at the index
      `findIndex` reports, and nothing when there is no match. */
  lemma RemoveFirstAt<T>(s: seq<T>, p: T -> bool)
    ensures Seqs.FindIndex(s, p).None? ==> RemoveFirst(s, p) == s
    ensures Seqs.FindIndex(s, p).Some? ==>
              var i := Seqs.FindIndex(s, p).value;
              RemoveFirst(s, p) == s[..i] + s[i + 1..]
    ensures Seqs.FindIndex(s, p).Some? ==> |RemoveFirst(s, p)| == |s| - 1
  {
    match Seqs.FindIndex(s, p)
    case None => RemoveNone(s, p);
    case Some(i) => RemoveFirstIndex(s, p, i);
  }

  /** With no match nothing is removed. */
  lemma {:induction false} RemoveNone<T>(s: seq<T>, p: T -> bool)
    requires forall k :: 0 <= k < |s| ==> !p(s[k])
    ensures RemoveFirst(s, p) == s
  {
    if |s| > 0 {
      assert !p(s[0]);
      assert forall k :: 0 <= k < |s| - 1 ==> s[1..][k] == s[k + 1];
      RemoveNone(s[1..], p);
      assert s == [s[0]] + s[1..];
    }
  }

  /** The element removed is the first match. */
  lemma {:induction false} RemoveFirstIndex<T>(s: seq<T>, p: T -> bool, i: nat)
    requires i < |s| && p(s[i]) && forall k :: 0 <= k < i ==> !p(s[k])
    ensures RemoveFirst(s, p) == s[..i] + s[i + 1..]
    decreases i
  {
    if i == 0 {
      assert s[..0] + s[1..] == s[1..];
    } else {
      var t := s[1..];
      assert !p(s[0]);
      assert t[i - 1] == s[i] && forall k :: 0 <= k < i - 1 ==> t[k] == s[k + 1];
      RemoveFirstIndex(t, p, i - 1);
      assert s[..i] + s[i + 1..] == [s[0]] + (t[..i - 1] + t[i..]) by {
        assert s[..i] == [s[0]] + t[..i - 1] && s[i + 1..] == t[i..];
      }
    }
  }

  /** `sorted(lst, key=..., reverse=True)[:limit]`. */
  function Newest<T>(s: seq<T>, key: T -> int, limit: int): seq<T>
  {
    Text.PyTake(Sorting.SortDesc(s, key), limit)
  }

  /** A listing is newest first, holds only stored entries, and has
      `limit` entries when there are that many (and fewer for a negative
      limit, which Python counts from the end). */
  lemma NewestFacts<T>(s: seq<T>, key: T -> int, limit: int)
    ensures Sorting.SortedDesc(Newest(s, key, limit), key)
    ensures multiset(Newest(s, key, limit)) <= multiset(s)
    ensures 0 <= limit ==> |Newest(s, key, limit)| == if limit < |s| then limit else |s|
    ensures limit < 0 ==> |Newest(s, key, limit)| < |s| || |s| == 0
    ensures |s| <= limit ==> multiset(Newest(s, key, limit)) == multiset(s)
  {
    var t := Sorting.SortDesc(s, key);
    var r := Newest(s, key, limit);
    Sorting.SortDescSorted(s, key);
    assert r == t[..|r|];
    assert t == r + t[|r|..];
    assert multiset(t) == multiset(r) + multiset(t[|r|..]);
  }
}
