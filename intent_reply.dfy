/** The cleaning step of intent analysis: the model's reply is a
    comma-separated list of framework ids, possibly numbered or quoted,
    and becomes one to three clean ids, "RACEF" when nothing is left. */
module IntentReply {
  import Text

  /** The id recommended when the reply names none. */
  const DefaultId: string := "RACEF"
  /** The most ids passed on. */
  const MaxIds: nat := 3

  /** The part of an entry after its last '.', the whole entry when it
      has none. */
  function AfterLastDot(fid: string): (r: string)
    ensures '.' !in r
    ensures forall c :: c in r ==> c in fid
  {
    var parts := Text.Split(fid, ".");
    Text.SplitCharPieces(fid, '.');
    assert parts[|parts| - 1] in parts;
    Text.SplitPiecesWithin(fid, ".");
    parts[|parts| - 1]
  }

  /** Surrounding whitespace, then double quotes, then single quotes
      removed. */
  function Unquote(s: string): (r: string)
    ensures forall c :: c in r ==> c in s
  {
    Text.StripChar(Text.StripChar(Text.Strip(s), '"'), '\'')
  }

  /** A character `Unquote` never removes from the ends of an id. */
  predicate Kept(c: char)
  {
    !Text.IsSpace(c) && c != '"' && c != '\''
  }

  /** The two quote layers: a run of double quotes is taken off, then a
      run of single quotes, and the ends of the whole are not whitespace. */
  lemma QuotesOff(d: string, q: string, t: string, q2: string, d2: string)
    requires forall c :: c in d ==> c == '"'
    requires forall c :: c in d2 ==> c == '"'
    requires forall c :: c in q ==> c == '\''
    requires forall c :: c in q2 ==> c == '\''
    requires |t| > 0 && Kept(t[0]) && Kept(t[|t| - 1])
    ensures var s := d + (q + t + q2) + d2;
            !Text.IsSpace(s[0]) && !Text.IsSpace(s[|s| - 1])
            && Text.StripChar(Text.StripChar(s, '"'), '\'') == t
  {
    var inner := q + t + q2;
    Text.EndsWithin(q, t, q2);
    Text.StripPadding(q, t, q2, Text.Only('\''));
    Text.EndsWithin(d, inner, d2);
    Text.StripPadding(d, inner, d2, Text.Only('"'));
  }

  /** Unquoting takes off surrounding whitespace, then any run of double
      quotes, then any run of single quotes, and nothing more. */
  lemma UnquoteWrapped(w: string, d: string, q: string, t: string, q2: string, d2: string, w2: string)
    requires forall c :: c in w ==> Text.IsSpace(c)
    requires forall c :: c in w2 ==> Text.IsSpace(c)
    requires forall c :: c in d ==> c == '"'
    requires forall c :: c in d2 ==> c == '"'
    requires forall c :: c in q ==> c == '\''
    requires forall c :: c in q2 ==> c == '\''
    requires |t| > 0 && Kept(t[0]) && Kept(t[|t| - 1])
    ensures Unquote(w + d + q + t + q2 + d2 + w2) == t
  {
    var quoted := d + (q + t + q2) + d2;
    QuotesOff(d, q, t, q2, d2);
    Text.StripPadding(w, quoted, w2, Text.Whitespace);
    assert w + d + q + t + q2 + d2 + w2 == w + quoted + w2;
  }

  /** A quoted id without '.' cleans to the id itself. */
  lemma CleanIdUnquotes(t: string, quote: char)
    requires '.' !in t && |t| > 0 && Kept(t[0]) && Kept(t[|t| - 1])
    requires quote == '"' || quote == '\''
    ensures CleanId([quote] + t + [quote]) == t
  {
    var s := [quote] + t + [quote];
    Text.SplitCharAbsent(s, '.');
    assert AfterLastDot(s) == s;
    Text.StripKeeps(s, Text.Whitespace);
    Text.EndsWithin([quote], t, [quote]);
    if quote == '"' {
      Text.StripPadding([quote], t, [quote], Text.Only('"'));
      Text.StripKeeps(t, Text.Only('\''));
    } else {
      Text.StripKeeps(s, Text.Only('"'));
      Text.StripPadding([quote], t, [quote], Text.Only('\''));
    }
  }

  /** One entry of the reply cleaned: the part after the last '.',
      unquoted. */
  function CleanId(fid: string): (r: string)
    ensures '.' !in r
    ensures ',' !in fid ==> ',' !in r
  {
    Unquote(AfterLastDot(fid))
  }

  /** A numbering prefix up to the last '.' is dropped: "1. RACEF" cleans
      to what " RACEF" cleans to. */
  lemma CleanIdDropsPrefix(prefix: string, id: string)
    requires '.' !in id
    ensures CleanId(prefix + "." + id) == CleanId(id)
  {
    assert AfterLastDot(prefix + "." + id) == id by {
      Text.SplitCharLast(prefix, '.', id);
    }
    assert AfterLastDot(id) == id by {
      Text.SplitCharAbsent(id, '.');
    }
  }

  /** The non-empty cleaned ids of the first `n` entries, in order. */
  function CleanedFirst(fids: seq<string>, n: nat): (r: seq<string>)
    requires n <= |fids|
    ensures |r| <= n
  {
    if n == 0 then []
    else
      var init := CleanedFirst(fids, n - 1);
      var id := CleanId(fids[n - 1]);
      if id != "" then init + [id] else init
  }

  /** One more entry: its cleaned id is kept when it is non-empty. */
  lemma CleanedFirstStep(fids: seq<string>, n: nat, id: string)
    requires n < |fids| && id == CleanId(fids[n])
    ensures CleanedFirst(fids, n + 1) == if id != "" then CleanedFirst(fids, n) + [id] else CleanedFirst(fids, n)
  {
  }

  /** The non-empty cleaned entries, in order. */
  function Cleaned(fids: seq<string>): seq<string>
  {
    CleanedFirst(fids, |fids|)
  }

  /** Every cleaned id is non-empty and free of '.', and free of ',' when
      the entries are. */
  lemma {:induction false} CleanedFirstIds(fids: seq<string>, n: nat)
    requires n <= |fids|
    ensures forall k :: 0 <= k < |CleanedFirst(fids, n)| ==>
              CleanedFirst(fids, n)[k] != "" && '.' !in CleanedFirst(fids, n)[k]
    ensures (forall j :: 0 <= j < |fids| ==> ',' !in fids[j]) ==>
              forall k :: 0 <= k < |CleanedFirst(fids, n)| ==> ',' !in CleanedFirst(fids, n)[k]
  {
    if n > 0 {
      CleanedFirstIds(fids, n - 1);
      var init := CleanedFirst(fids, n - 1);
      var id := CleanId(fids[n - 1]);
      if id != "" {
        var r := init + [id];
        assert forall k :: 0 <= k < |init| ==> r[k] == init[k];
        assert r[|init|] == id;
      }
    }
  }

  /** The entries of the reply: the stripped reply split on ',', each
      piece stripped. */
  function Entries(content: string): (r: seq<string>)
    ensures |r| >= 1
    ensures forall k :: 0 <= k < |r| ==> ',' !in r[k]
  {
    var parts := Text.Split(Text.Strip(content), ",");
    Text.SplitCharPieces(Text.Strip(content), ',');
    seq(|parts|, k requires 0 <= k < |parts| => Text.Strip(parts[k]))
  }

  /** The default when nothing is left, then the first three. */
  function Pick(cleaned: seq<string>): (r: seq<string>)
    ensures 1 <= |r| <= MaxIds
    ensures |cleaned| == 0 ==> r == [DefaultId]
    ensures |cleaned| > 0 ==> r <= cleaned
    ensures |cleaned| > 0 ==> r == cleaned[..if |cleaned| < MaxIds then |cleaned| else MaxIds]
  {
    Text.PyTake(if |cleaned| == 0 then [DefaultId] else cleaned, MaxIds)
  }

  /** The ids `analyze_intent` returns for a reply. */
  function Reply(content: string): seq<string>
  {
    Pick(Cleaned(Entries(content)))
  }

  /** One to three ids, each non-empty and free of ',' and '.'; in the
      order of the reply when there are any, else the default alone. */
  lemma ReplyFacts(content: string)
    ensures 1 <= |Reply(content)| <= MaxIds
    ensures forall k :: 0 <= k < |Reply(content)| ==>
              Reply(content)[k] != "" && ',' !in Reply(content)[k] && '.' !in Reply(content)[k]
    ensures Cleaned(Entries(content)) == [] ==> Reply(content) == [DefaultId]
    ensures Cleaned(Entries(content)) != [] ==> Reply(content) <= Cleaned(Entries(content))
    ensures var cleaned := Cleaned(Entries(content));
            cleaned != [] ==> Reply(content) == cleaned[..if |cleaned| < MaxIds then |cleaned| else MaxIds]
  {
    var fids := Entries(content);
    var cleaned := Cleaned(fids);
    CleanedFirstIds(fids, |fids|);
    var r := Pick(cleaned);
    forall k | 0 <= k < |r| ensures r[k] != "" && ',' !in r[k] && '.' !in r[k] {
      if |cleaned| == 0 {
        assert r[k] == DefaultId;
      } else {
        assert r[k] == cleaned[k];
      }
    }
  }

  /** The cleaning loop of `analyze_intent`. */
  method CleanAll(fids: seq<string>) returns (cleaned: seq<string>)
    ensures cleaned == Cleaned(fids)
  {
    cleaned := [];
    var i := 0;
    while i < |fids|
      invariant 0 <= i <= |fids|
      invariant cleaned == CleanedFirst(fids, i)
    {
      cleaned := CleanOne(fids, i, cleaned);
      i := i + 1;
    }
  }

  /** One iteration of the cleaning loop: entry `i` cleaned, and kept when
      it is non-empty. */
  method CleanOne(fids: seq<string>, i: nat, cleaned: seq<string>) returns (cleaned': seq<string>)
    requires i < |fids| && cleaned == CleanedFirst(fids, i)
    ensures cleaned' == CleanedFirst(fids, i + 1)
  {
    var fid := CleanId(fids[i]);
    CleanedFirstStep(fids, i, fid);
    cleaned' := cleaned;
    if fid != "" {
      cleaned' := cleaned + [fid];
    }
  }

  /** `analyze_intent` after the reply arrives: the cleaning loop, then
      the default and the cut to three. */
  method CleanReply(content: string) returns (ids: seq<string>)
    ensures ids == Reply(content)
  {
    var cleaned := CleanAll(Entries(content));
    if |cleaned| == 0 {
      cleaned := [DefaultId];
    }
    ids := Text.PyTake(cleaned, MaxIds);
  }
}
