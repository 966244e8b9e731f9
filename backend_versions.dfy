/** The service-side version manager in its development mode: versions
    live in memory in a dictionary from user id to that user's list,
    newest first, at most twenty per user. The version id (`uuid4`) and the
    creation time (`datetime.now`) are parameters. */
module BackendVersions {
  import opened Wrappers
  import Seqs
  import Sorting
  import Text
  import opened VersionStore

  /** `self.MAX_VERSIONS`. */
  const MaxVersions: nat := 20
  /** The default `version_number` of `save_version`. */
  const DefaultNumber: string := "1.0"

  datatype Version = Version(
    id: string,
    userId: string,
    content: string,
    versionType: VersionType,
    createdAt: int,
    versionNumber: string,
    description: Option<string>,
    topic: Option<string>,
    frameworkId: Option<string>,
    frameworkName: Option<string>,
    originalInput: Option<string>)

  function CreatedAt(v: Version): int
  {
    v.createdAt
  }

  function UserOf(v: Version): string
  {
    v.userId
  }

  function IdIs(versionId: string): Version -> bool
  {
    (v: Version) => v.id == versionId
  }

  /** Why a rollback is refused (the two `ValueError`s). */
  datatype RollbackError = NotFound(versionId: string) | NotOwned(versionId: string, userId: string)

  class VersionManager {
    /** `self.versions`. */
    var versions: map<string, seq<Version>>
    /** The keys of `self.versions` in insertion order. */
    var userOrder: seq<string>

    /** The key order lists exactly the dictionary's keys, once each; each
        list belongs to its user and stays within the cap. */
    ghost predicate Valid()
      reads this
    {
      Owned(versions, userOrder, MaxVersions, UserOf)
    }

    constructor ()
      ensures Valid()
      ensures versions == map[] && userOrder == []
    {
      versions := map[];
      userOrder := [];
    }

    /** `save_version`: the new version goes to the front of its user's
        list, which is cut back to twenty; other users are untouched. */
    method SaveVersion(userId: string, content: string, versionType: VersionType,
                       versionNumber: string, description: Option<string>, topic: Option<string>,
                       frameworkId: Option<string>, frameworkName: Option<string>,
                       originalInput: Option<string>, newId: string, now: int)
      returns (version: Version)
      modifies this
      ensures version == Version(newId, userId, content, versionType, now, versionNumber,
                                 description, topic, frameworkId, frameworkName, originalInput)
      ensures versions == old(versions)[userId := PushFront(version, ListOf(old(versions), userId), MaxVersions)]
      ensures userOrder == if userId in old(versions) then old(userOrder) else old(userOrder) + [userId]
      ensures old(Valid()) ==> Valid()
    {
      version := Version(newId, userId, content, versionType, now, versionNumber,
                         description, topic, frameworkId, frameworkName, originalInput);
      if userId !in versions {
        versions := versions[userId := []];
        userOrder := userOrder + [userId];
      }
      var lst := [version] + versions[userId];
      if |lst| > MaxVersions {
        lst := lst[..MaxVersions];
      }
      versions := versions[userId := lst];
      if old(Valid()) {
        KeepsOwned(old(versions), old(userOrder), MaxVersions, UserOf, userId, version);
      }
    }

    /** `get_versions`: at most `limit` (by default 20) of the user's
        versions, newest first, ties in stored order. */
    method GetVersions(userId: string, limit: int) returns (result: seq<Version>)
      ensures Sorting.SortedDesc(result, CreatedAt)
      ensures multiset(result) <= multiset(ListOf(versions, userId))
      ensures userId !in versions ==> result == []
      ensures 0 <= limit ==> |result| == if limit < |ListOf(versions, userId)| then limit else |ListOf(versions, userId)|
      ensures |ListOf(versions, userId)| <= limit ==> multiset(result) == multiset(ListOf(versions, userId))
      ensures result <= Sorting.SortDesc(ListOf(versions, userId), CreatedAt)
    {
      var userVersions := ListOf(versions, userId);
      var sortedVersions := Sorting.SortDesc(userVersions, CreatedAt);
      result := Text.PyTake(sortedVersions, limit);
      NewestFacts(userVersions, CreatedAt, limit);
    }

    /** `get_version`: the first version with that id, users scanned in the
        order they were first seen. */
    method GetVersion(versionId: string) returns (r: Option<Version>)
      ensures r == FindAcross(userOrder, versions, IdIs(versionId))
      ensures r.Some? ==> r.value.id == versionId
      ensures Valid() ==> (r.None? <==> forall u, k :: u in versions && 0 <= k < |versions[u]| ==> versions[u][k].id != versionId)
      ensures Valid() && r.Some? ==> r.value.userId in versions && r.value in versions[r.value.userId]
    {
      r := FindAcrossUsers(userOrder, versions, IdIs(versionId));
      if Valid() {
        FoundIsStored(versions, userOrder, MaxVersions, UserOf, IdIs(versionId));
      }
    }

    /** `delete_version`: removes the first version with that id from the
        user's list; `False` for an unknown user or an absent id. */
    method DeleteVersion(userId: string, versionId: string) returns (deleted: bool)
      modifies this
      ensures deleted <==> (userId in old(versions)
                            && exists k :: 0 <= k < |old(versions)[userId]| && old(versions)[userId][k].id == versionId)
      ensures deleted ==> versions == old(versions)[userId := RemoveFirst(old(versions)[userId], IdIs(versionId))]
      ensures deleted ==> |ListOf(versions, userId)| == |ListOf(old(versions), userId)| - 1
      ensures !deleted ==> versions == old(versions)
      ensures userOrder == old(userOrder)
      ensures old(Valid()) ==> Valid()
    {
      if userId !in versions {
        return false;
      }
      var userVersions := versions[userId];
      var i := FirstMatch(userVersions, IdIs(versionId));
      RemoveFirstAt(userVersions, IdIs(versionId));
      if i.Some? {
        versions := versions[userId := userVersions[..i.value] + userVersions[i.value + 1..]];
        assert forall k :: 0 <= k < |versions[userId]| ==> versions[userId][k] in userVersions;
        return true;
      }
      return false;
    }

    /** `get_version_count`. */
    method GetVersionCount(userId: string) returns (n: nat)
      ensures n == |ListOf(versions, userId)|
      ensures userId !in versions ==> n == 0
      ensures Valid() ==> n <= MaxVersions
    {
      n := |ListOf(versions, userId)|;
    }

    /** `rollback_version`: a copy of the target's content is saved for the
        user as a SAVE version with the default number; a missing version or
        one of another user is refused and nothing changes. */
    method RollbackVersion(userId: string, versionId: string, newId: string, now: int)
      returns (r: Result<Version, RollbackError>)
      modifies this
      ensures var target := old(FindAcross(userOrder, versions, IdIs(versionId)));
        match target
        case None => r == Err(NotFound(versionId)) && versions == old(versions) && userOrder == old(userOrder)
        case Some(t) =>
          if t.userId != userId then
            r == Err(NotOwned(versionId, userId)) && versions == old(versions) && userOrder == old(userOrder)
          else
            r == Ok(Version(newId, userId, t.content, SAVE, now, DefaultNumber, None, None, None, None, None))
            && versions == old(versions)[userId := PushFront(r.value, ListOf(old(versions), userId), MaxVersions)]
            && userOrder == if userId in old(versions) then old(userOrder) else old(userOrder) + [userId]
      ensures old(Valid()) ==> Valid()
      ensures old(Valid()) ==> userOrder == old(userOrder)
    {
      var target := GetVersion(versionId);
      if target.None? {
        return Err(NotFound(versionId));
      }
      if target.value.userId != userId {
        return Err(NotOwned(versionId, userId));
      }
      var v := SaveVersion(userId, target.value.content, SAVE, DefaultNumber, None, None, None, None, None, newId, now);
      return Ok(v);
    }
  }
}
