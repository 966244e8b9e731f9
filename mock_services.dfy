/** The development stand-ins for the database services: a version store
    that numbers the versions of each (user, prompt) pair 1, 2, 3, … and a
    usage counter with a fixed daily limit of 100. The `created_at`
    timestamp is a parameter. */
module MockServices {
  import opened Wrappers
  import Seqs
  import Text
  import VersionStore

  const DailyLimit: int := 100

  /** A saved version as the mock returns it. */
  datatype MockVersion = MockVersion(
    id: string,
    promptId: string,
    userId: string,
    versionNumber: nat,
    content: string,
    metadata: map<string, string>,
    createdAt: string)

  /** The id of the n-th version of a key. */
  function VersionId(n: nat): (id: string)
    ensures Text.StartsWith(id, "version-")
  {
    "version-" + Text.NatToString(n)
  }

  /** Different numbers give different ids. */
  lemma VersionIdInjective(m: nat, n: nat)
    requires VersionId(m) == VersionId(n)
    ensures m == n
  {
    var p := "version-";
    assert VersionId(m)[|p|..] == Text.NatToString(m);
    assert VersionId(n)[|p|..] == Text.NatToString(n);
    Text.NatToStringRoundTrip(m);
    Text.NatToStringRoundTrip(n);
  }

  /** The storage key of a user's prompt. */
  function PromptKey(userId: string, promptId: string): string
  {
    userId + ":" + promptId
  }

  function HasId(versionId: string): MockVersion -> bool
  {
    (v: MockVersion) => v.id == versionId
  }

  /** The invariant of the mock version store, on its three fields. */
  predicate ValidStore(versions: map<string, seq<MockVersion>>, counter: map<string, nat>, order: seq<string>)
  {
    versions.Keys == counter.Keys
    && (forall k :: k in versions ==> k in counter && |versions[k]| == counter[k])
    && (forall k, i :: k in versions && 0 <= i < |versions[k]| ==>
          versions[k][i].versionNumber == i + 1 && versions[k][i].id == VersionId(i + 1))
    && Seqs.NoDuplicates(order)
    && (forall k :: k in versions ==> k in order)
    && (forall k :: k in order ==> k in versions)
  }

  /** Appending the next version of a key keeps the invariant. */
  lemma SaveKeepsValid(versions: map<string, seq<MockVersion>>, counter: map<string, nat>, order: seq<string>,
                       key: string, version: MockVersion)
    requires ValidStore(versions, counter, order)
    requires var n := if key in counter then counter[key] + 1 else 1;
      version.versionNumber == n && version.id == VersionId(n)
    ensures var n := if key in counter then counter[key] + 1 else 1;
      ValidStore(versions[key := VersionStore.ListOf(versions, key) + [version]], counter[key := n],
                 if key in versions then order else order + [key])
  {
    var n := if key in counter then counter[key] + 1 else 1;
    var l: seq<MockVersion> := VersionStore.ListOf(versions, key) + [version];
    var vs: map<string, seq<MockVersion>> := versions[key := l];
    assert |l| == n;
    forall k: string, i: int | k in vs && 0 <= i < |vs[k]|
      ensures vs[k][i].versionNumber == i + 1 && vs[k][i].id == VersionId(i + 1)
    {
      if k == key && i < |l| - 1 {
        assert vs[k][i] == versions[k][i];
      }
    }
    if key !in versions {
      var o := order + [key];
      forall i, j | 0 <= i < j < |o| ensures o[i] != o[j] {
        if j == |order| {
          assert o[i] == order[i] && order[i] in order;
        }
      }
    }
  }

  class MockVersionService {
    /** `versions`: the list of each key, oldest first. */
    var versions: map<string, seq<MockVersion>>
    /** `version_counter`. */
    var versionCounter: map<string, nat>
    /** The keys in the order they were first saved (dictionary order). */
    var keyOrder: seq<string>

    /** Every key has a counter equal to the length of its list, the n-th
        version of a key is numbered n and called "version-n", and the key
        order lists each key once. */
    predicate Valid()
      reads this
    {
      ValidStore(versions, versionCounter, keyOrder)
    }

    constructor ()
      ensures Valid()
      ensures versions == map[] && versionCounter == map[] && keyOrder == []
    {
      versions := map[];
      versionCounter := map[];
      keyOrder := [];
    }

    /** `save_version`: the next number of the key, appended to its list. */
    method SaveVersion(userId: string, promptId: string, content: string,
                       metadata: Option<map<string, string>>, now: string)
      returns (version: MockVersion)
      modifies this
      requires Valid()
      ensures Valid()
      ensures var key := PromptKey(userId, promptId);
        var n := if key in old(versionCounter) then old(versionCounter)[key] + 1 else 1;
        version == MockVersion(VersionId(n), promptId, userId, n, content, metadata.GetOr(map[]), now)
        && versions == old(versions)[key := VersionStore.ListOf(old(versions), key) + [version]]
        && versionCounter == old(versionCounter)[key := n]
        && keyOrder == if key in old(versions) then old(keyOrder) else old(keyOrder) + [key]
      ensures |versions[PromptKey(userId, promptId)]| == version.versionNumber
    {
      var key := PromptKey(userId, promptId);
      var n := if key in versionCounter then versionCounter[key] + 1 else 1;
      version := MockVersion(VersionId(n), promptId, userId, n, content, metadata.GetOr(map[]), now);
      SaveKeepsValid(versions, versionCounter, keyOrder, key, version);
      keyOrder := if key in versions then keyOrder else keyOrder + [key];
      versions := versions[key := VersionStore.ListOf(versions, key) + [version]];
      versionCounter := versionCounter[key := n];
    }

    /** `get_versions`: the key's list, oldest first, or []. */
    method GetVersions(userId: string, promptId: string) returns (r: seq<MockVersion>)
      requires Valid()
      ensures r == VersionStore.ListOf(versions, PromptKey(userId, promptId))
      ensures forall i :: 0 <= i < |r| ==> r[i].versionNumber == i + 1
    {
      r := VersionStore.ListOf(versions, PromptKey(userId, promptId));
    }

    /** `get_version`: the first version with that id, keys in the order
        they were first saved. */
    method GetVersion(versionId: string) returns (r: Option<MockVersion>)
      requires Valid()
      ensures r == VersionStore.FindAcross(keyOrder, versions, HasId(versionId))
      ensures r.Some? ==> r.value.id == versionId
      ensures r.None? <==> forall k, i :: k in versions && 0 <= i < |versions[k]| ==> versions[k][i].id != versionId
    {
      r := VersionStore.FindAcrossUsers(keyOrder, versions, HasId(versionId));
      if r.None? {
        forall k, i | k in versions && 0 <= i < |versions[k]| ensures versions[k][i].id != versionId {
          var j :| 0 <= j < |keyOrder| && keyOrder[j] == k;
          assert VersionStore.ListOf(versions, keyOrder[j]) == versions[k];
          assert !HasId(versionId)(versions[k][i]);
        }
      }
    }
  }

  /** What `check_quota` reports. */
  datatype QuotaReport = QuotaReport(userId: string, dailyLimit: int, dailyUsed: int, remaining: int, accountType: string)

  class MockQuotaService {
    /** `usage`. */
    var usage: map<string, int>

    constructor ()
      ensures usage == map[]
    {
      usage := map[];
    }

    function Used(userId: string): int
      reads this
    {
      if userId in usage then usage[userId] else 0
    }

    /** `check_quota`: a pro account with 100 a day. */
    method CheckQuota(userId: string) returns (r: QuotaReport)
      ensures r.dailyUsed + r.remaining == DailyLimit
      ensures r.dailyUsed == Used(userId) && r.dailyLimit == DailyLimit
      ensures r.userId == userId && r.accountType == "pro"
    {
      r := QuotaReport(userId, DailyLimit, Used(userId), DailyLimit - Used(userId), "pro");
    }

    /** `increment_usage`: one more use; always succeeds. */
    method IncrementUsage(userId: string) returns (ok: bool)
      modifies this
      ensures ok
      ensures usage == old(usage)[userId := old(Used(userId)) + 1]
      ensures Used(userId) == old(Used(userId)) + 1
    {
      var current := Used(userId);
      usage := usage[userId := current + 1];
      return true;
    }
  }
}
