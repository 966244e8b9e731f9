/** A prompt version as the client's workspace and history panel hold it.
    Creation times are the millisecond values `new Date(createdAt).getTime()`
    gives for the ISO strings the server sends. */
module ClientVersion {
  import opened Wrappers
  import Seqs

  datatype Kind = Save | Optimize

  datatype Version = Version(
    id: string,
    content: string,
    kind: Kind,
    createdAt: int,
    description: Option<string>,
    versionNumber: string,
    topic: Option<string>,
    frameworkId: Option<string>,
    frameworkName: Option<string>,
    originalInput: Option<string>)

  /** `versions.find(v => v.id === id)`. */
  function FindVersion(versions: seq<Version>, id: string): (r: Option<Version>)
    ensures r.Some? <==> exists k :: 0 <= k < |versions| && versions[k].id == id
    ensures r.Some? ==> r.value.id == id
    ensures r.Some? ==> exists k :: 0 <= k < |versions| && versions[k] == r.value
                                   && forall m :: 0 <= m < k ==> versions[m].id != id
  {
    match Seqs.FindIndex(versions, (v: Version) => v.id == id)
    case None => None
    case Some(k) => Some(versions[k])
  }

  /** The head of `versions.filter(v => v.topic === topic)`: a version without a topic
      never matches. */
  function FirstWithTopic(versions: seq<Version>, topic: string): (r: Option<Version>)
    ensures r.Some? <==> exists k :: 0 <= k < |versions| && versions[k].topic == Some(topic)
    ensures r.Some? ==> r.value.topic == Some(topic)
    ensures r.Some? ==> exists k :: 0 <= k < |versions| && versions[k] == r.value
                                   && forall m :: 0 <= m < k ==> versions[m].topic != Some(topic)
  {
    match Seqs.FindIndex(versions, (v: Version) => v.topic == Some(topic))
    case None => None
    case Some(k) => Some(versions[k])
  }
}
