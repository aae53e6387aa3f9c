/** The Express backend: the early extractor, which keeps every content node
    with an author URL and a text as an `{authorUrl, authorComment}` pair; the
    `"[id1,id2,...]"` list for the player-summary request and the map from
    steamid to persona name built from its answer; the identifier resolution;
    and the `/comments/:steamId` route. */
module BackendIndex {
  import opened Wrappers
  import opened JsStrings
  import opened JsMaps
  import opened Markup
  import opened SteamTypes
  import opened BackendStrings
  import opened Sequences

  /** The backend's comment record. */
  datatype CommentPair = CommentPair(authorUrl: string, authorComment: string)

  // ----------------------------------------------------- getValidSteamId64

  /** What `json.response.steamid` dereferences: the lookup's `response` is
      present whenever the lookup is made. */
  predicate LookupAnswers(input: string, lookup: string -> VanityResponse) {
    !DoesStringOnlyContainNumbers(input) ==> lookup(input).response.Some?
  }

  /** `getValidSteamId64`: an all-digit input is returned as it is and no
      lookup is consulted; otherwise the lookup's steamid when it is truthy,
      and undefined when it is empty or absent. A resolved id is never empty. */
  function GetValidSteamId64(input: string, lookup: string -> VanityResponse): (r: Option<string>)
    requires LookupAnswers(input, lookup)
    ensures DoesStringOnlyContainNumbers(input) ==> r == Some(input)
    ensures !DoesStringOnlyContainNumbers(input) ==>
              (r.Some? <==> IsTruthy(lookup(input).response.value.steamid)) &&
              (r.Some? ==> r == lookup(input).response.value.steamid)
    ensures r.None? || r.value != ""
  {
    if !DoesStringOnlyContainNumbers(input) then
      var steamid := lookup(input).response.value.steamid;
      if IsTruthy(steamid) then steamid else None
    else Some(input)
  }

  // ---------------------------------------------- getProfileCommentsFromSteamId64

  /** The pair one content node contributes: its anchor's href and its
      stripped text, when both are non-empty. */
  function NodePair(c: ContentNode): (r: Option<CommentPair>)
    ensures r.Some? ==> r.value.authorUrl != "" && r.value.authorComment != "" && TagFree(r.value.authorComment)
  {
    var authorUrl := JsdomHref(c);
    var commentText := StrippedText(c);
    if IsTruthy(authorUrl) && IsTruthy(commentText) then Some(CommentPair(authorUrl.value, commentText.value))
    else None
  }

  /** NodePair is present exactly when the node has an anchor and a text
      element, the href is not empty and the text is not empty after the tags
      are stripped; it then holds that href and that text. */
  lemma NodePairFields(c: ContentNode)
    ensures NodePair(c).Some? <==> IsTruthy(JsdomHref(c)) && IsTruthy(StrippedText(c))
    ensures NodePair(c).Some? ==> NodePair(c).value == CommentPair(JsdomHref(c).value, StrippedText(c).value)
    ensures NodePair(c).Some? ==> c.authorLink.Some? && c.text.Some?
  {
  }

  function NodePairs(cs: seq<ContentNode>): (r: seq<Option<CommentPair>>)
    ensures |r| == |cs| && forall i :: 0 <= i < |cs| ==> r[i] == NodePair(cs[i])
  {
    Map(NodePair, cs)
  }

  /** The pairs of the content nodes, in document order, with no dedup. */
  function Pairs(cs: seq<ContentNode>): (r: seq<CommentPair>)
    ensures |r| <= |cs|
  {
    Somes(NodePairs(cs))
  }

  /** `p` is the pair of one of the nodes. */
  ghost predicate FromNode(cs: seq<ContentNode>, p: CommentPair) {
    exists i :: 0 <= i < |cs| && NodePair(cs[i]) == Some(p)
  }

  /** Every pair comes from a content node, and every node that qualifies
      gives its pair. */
  lemma {:induction false} PairsMembers(cs: seq<ContentNode>)
    ensures forall k :: 0 <= k < |Pairs(cs)| ==> FromNode(cs, Pairs(cs)[k])
    ensures forall i :: 0 <= i < |cs| && NodePair(cs[i]).Some? ==> NodePair(cs[i]).value in Pairs(cs)
  {
    SomesMembers(NodePairs(cs));
    forall k | 0 <= k < |Pairs(cs)|
      ensures FromNode(cs, Pairs(cs)[k])
    {
      assert Some(Pairs(cs)[k]) in NodePairs(cs);
      var i :| 0 <= i < |NodePairs(cs)| && NodePairs(cs)[i] == Some(Pairs(cs)[k]);
      assert NodePair(cs[i]) == Some(Pairs(cs)[k]);
    }
  }

  /** Document order: the nodes split in two give their pairs in that order. */
  lemma PairsAppend(cs: seq<ContentNode>, ds: seq<ContentNode>)
    ensures Pairs(cs + ds) == Pairs(cs) + Pairs(ds)
  {
    MapAppend(NodePair, cs, ds);
    SomesAppend(NodePairs(cs), NodePairs(ds));
  }

  /** No dedup: a node that qualifies contributes again when it repeats. */
  lemma RepeatedNodeKept(c: ContentNode)
    requires NodePair(c).Some?
    ensures Pairs([c, c]) == [NodePair(c).value, NodePair(c).value]
  {
    MapPair(NodePair, c);
    SomesPair(NodePair(c));
  }

  /** What `getProfileCommentsFromSteamId64` returns for a fetched feed:
      null for a zero `total_count`, otherwise the pairs of all content nodes. */
  function CommentPairs(doc: FeedDocument): (r: Option<seq<CommentPair>>)
    ensures doc.totalCount == 0 <==> r.None?
    ensures r.Some? ==> |r.value| <= |ContentNodes(doc.blocks)|
  {
    if doc.totalCount == 0 then None else Some(Pairs(ContentNodes(doc.blocks)))
  }

  /** The extraction loop as the source writes it. */
  method GetProfileCommentsFromSteamId64(payload: FeedDocument) returns (r: Option<seq<CommentPair>>)
    ensures r == CommentPairs(payload)
  {
    if payload.totalCount == 0 {
      return None;
    }
    var commentThreads := ContentNodes(payload.blocks);
    ghost var pairs := NodePairs(commentThreads);
    var commentPairs: seq<CommentPair> := [];
    var i := 0;
    while i < |commentThreads|
      invariant 0 <= i <= |commentThreads|
      invariant commentPairs == Somes(pairs[..i])
    {
      var c := commentThreads[i];
      var authorUrl := JsdomHref(c);
      var commentText := StrippedText(c);
      TakeOneMore(pairs, i);
      SomesSnoc(pairs[..i], pairs[i]);
      NodePairFields(c);
      if IsTruthy(authorUrl) && IsTruthy(commentText) {
        commentPairs := commentPairs + [CommentPair(authorUrl.value, commentText.value)];
      }
      i := i + 1;
    }
    assert pairs[..i] == pairs;
    return Some(commentPairs);
  }

  // -------------------------------------------------- getPersonaNameFromSteamId64

  /** The `steamids` query value: "[" + the ids joined by "," + "]". */
  function IdList(ids: seq<string>): (r: string)
    ensures |r| >= 2 && r[0] == '[' && r[|r| - 1] == ']'
    ensures r[1..|r| - 1] == Join(ids, ',')
  {
    "[" + Join(ids, ',') + "]"
  }

  /** The builder's string after `k` of the ids: a comma follows the last
      one written unless it is the last of all. */
  function Formatted(ids: seq<string>, k: nat): (r: string)
    requires k <= |ids|
    ensures |r| >= 1 && r[0] == '['
    ensures 0 < k < |ids| ==> r[|r| - 1] == ','
    ensures k == |ids| ==> r + "]" == IdList(ids)
  {
    assert ids[..|ids|] == ids;
    "[" + Join(ids[..k], ',') + (if 0 < k < |ids| then "," else "")
  }

  lemma FormattedStep(ids: seq<string>, k: nat)
    requires k < |ids|
    ensures Formatted(ids, k) + ids[k] + (if k != |ids| - 1 then "," else "") == Formatted(ids, k + 1)
  {
    TakeOneMore(ids, k);
    if k > 0 {
      JoinSnoc(ids[..k], ids[k], ',');
    } else {
      assert ids[..1] == [ids[0]];
    }
  }

  /** The string builder as the source writes it: each id followed by a comma
      unless it is the last. */
  method FormatSteamIdList(steamId64s: seq<string>) returns (formattedString: string)
    ensures formattedString == IdList(steamId64s)
  {
    formattedString := "[";
    var index := 0;
    while index < |steamId64s|
      invariant 0 <= index <= |steamId64s|
      invariant formattedString == Formatted(steamId64s, index)
    {
      FormattedStep(steamId64s, index);
      formattedString := formattedString + steamId64s[index] + (if index != |steamId64s| - 1 then "," else "");
      index := index + 1;
    }
    assert steamId64s[..index] == steamId64s;
    formattedString := formattedString + "]";
  }

  /** An empty list gives "[]". */
  lemma IdListEmpty()
    ensures IdList([]) == "[]"
  {
  }

  /** The list can be read back: between the brackets, splitting at the commas
      gives the ids again, provided none of them contains a comma. */
  lemma IdListRoundTrip(ids: seq<string>)
    requires |ids| > 0 && forall i :: 0 <= i < |ids| ==> ',' !in ids[i]
    ensures |IdList(ids)| >= 2 && IdList(ids)[0] == '[' && IdList(ids)[|IdList(ids)| - 1] == ']'
    ensures Split(IdList(ids)[1..|IdList(ids)| - 1], ',') == ids
  {
    var s := IdList(ids);
    assert s[1..|s| - 1] == Join(ids, ',');
    SplitJoin(ids, ',');
  }

  /** The ids the classifier accepts contain no comma, so their list reads back. */
  lemma NumericIdListRoundTrip(ids: seq<string>)
    requires |ids| > 0 && forall i :: 0 <= i < |ids| ==> DoesStringOnlyContainNumbers(ids[i])
    ensures Split(IdList(ids)[1..|IdList(ids)| - 1], ',') == ids
  {
    forall i | 0 <= i < |ids|
      ensures ',' !in ids[i]
    {
    }
    IdListRoundTrip(ids);
  }

  /** The map the `players.forEach` loop leaves: each steamid set to
      `personaname ?? ""`, in turn. */
  function PersonaNames(players: seq<Player>): (r: JsMap<string>)
    ensures r.Valid()
  {
    if players == [] then Empty()
    else
      var p := players[|players| - 1];
      PersonaNames(players[..|players| - 1]).Set(p.steamid, p.personaname.GetOr(""))
  }

  function SteamIds(players: seq<Player>): (r: seq<string>)
    ensures |r| == |players| && forall i :: 0 <= i < |players| ==> r[i] == players[i].steamid
  {
    seq(|players|, i requires 0 <= i < |players| => players[i].steamid)
  }

  /** The keys are the players' steamids, once each, in first-seen order. */
  lemma {:induction false} PersonaNamesKeys(players: seq<Player>)
    ensures PersonaNames(players).keys == FirstOccurrences(SteamIds(players))
  {
    if players != [] {
      var init := players[..|players| - 1];
      PersonaNamesKeys(init);
      assert SteamIds(players)[..|players| - 1] == SteamIds(init);
    }
  }

  /** A steamid's name is its last player's `personaname ?? ""`: a later
      duplicate overwrites an earlier one. */
  lemma {:induction false} PersonaNamesLastWins(players: seq<Player>, j: nat)
    requires j < |players|
    requires forall k :: j < k < |players| ==> players[k].steamid != players[j].steamid
    ensures players[j].steamid in PersonaNames(players).entries
    ensures PersonaNames(players).entries[players[j].steamid] == players[j].personaname.GetOr("")
  {
    var init := players[..|players| - 1];
    if j < |players| - 1 {
      assert init[j] == players[j];
      PersonaNamesLastWins(init, j);
    }
  }

  /** Only the players' steamids are keys. */
  lemma PersonaNamesDomain(players: seq<Player>, id: string)
    ensures id in PersonaNames(players).entries <==> exists i :: 0 <= i < |players| && players[i].steamid == id
  {
    PersonaNamesKeys(players);
    assert id in SteamIds(players) <==> exists i :: 0 <= i < |players| && players[i].steamid == id;
  }

  /** The map builder as the source writes it. */
  method BuildPersonaNameMap(players: seq<Player>) returns (steamId64PersonaNameMap: JsMap<string>)
    ensures steamId64PersonaNameMap == PersonaNames(players)
  {
    steamId64PersonaNameMap := Empty();
    var i := 0;
    while i < |players|
      invariant 0 <= i <= |players|
      invariant steamId64PersonaNameMap == PersonaNames(players[..i])
    {
      assert players[..i + 1][..i] == players[..i];
      steamId64PersonaNameMap := steamId64PersonaNameMap.Set(players[i].steamid, players[i].personaname.GetOr(""));
      i := i + 1;
    }
    assert players[..i] == players;
  }

  /** `getPersonaNameFromSteamId64`: the list is formatted, the summaries for
      it are fetched (a parameter here) and their players mapped. */
  method GetPersonaNameFromSteamId64(steamId64s: seq<string>, summaries: string -> seq<Player>)
    returns (m: JsMap<string>)
    ensures m == PersonaNames(summaries(IdList(steamId64s)))
  {
    var formattedString := FormatSteamIdList(steamId64s);
    m := BuildPersonaNameMap(summaries(formattedString));
  }

  // ------------------------------------------------------- /comments/:steamId

  /** The route's reply: a bare status with its status message, or the
      comments sent with the default status 200. */
  datatype RouteReply = SendStatus(code: int, statusMessage: string) | Send(comments: seq<CommentPair>)

  /** What the route can crash on for a given parameter. */
  predicate RouteIsReadable(steamId: string, lookup: string -> VanityResponse) {
    LookupAnswers(steamId, lookup)
  }

  /** `GET /comments/:steamId`: 404 "Steam account not found" when no id
      resolves, 404 "No comments found" when the feed's count is 0, and the
      pairs otherwise; an empty list of pairs is still sent. The feed
      fetched for an id is a parameter. */
  function CommentsRoute(steamId: string, lookup: string -> VanityResponse, feed: string -> FeedDocument): (r: RouteReply)
    requires RouteIsReadable(steamId, lookup)
    ensures var id := GetValidSteamId64(steamId, lookup);
            && (id.None? ==> r == SendStatus(404, "Steam account not found"))
            && (id.Some? && feed(id.value).totalCount == 0 ==> r == SendStatus(404, "No comments found"))
            && (id.Some? && feed(id.value).totalCount != 0 ==> r == Send(Pairs(ContentNodes(feed(id.value).blocks))))
  {
    var steamId64 := GetValidSteamId64(steamId, lookup);
    if !IsTruthy(steamId64) then SendStatus(404, "Steam account not found")
    else
      var comments := CommentPairs(feed(steamId64.value));
      if comments.None? then SendStatus(404, "No comments found")
      else Send(comments.value)
  }

  /** An all-digit parameter is fetched as it is, whatever the lookup holds. */
  lemma RouteDigitsPassThrough(steamId: string, lookup: string -> VanityResponse, feed: string -> FeedDocument)
    requires DoesStringOnlyContainNumbers(steamId)
    requires feed(steamId).totalCount != 0
    ensures RouteIsReadable(steamId, lookup)
    ensures CommentsRoute(steamId, lookup, feed) == Send(Pairs(ContentNodes(feed(steamId).blocks)))
  {
  }

  /** An alias whose lookup has an empty steamid is not found. */
  lemma RouteEmptySteamIdNotFound(steamId: string, lookup: string -> VanityResponse, feed: string -> FeedDocument)
    requires !DoesStringOnlyContainNumbers(steamId)
    requires lookup(steamId).response == Some(VanityData(Some(""), 1, None))
    ensures RouteIsReadable(steamId, lookup)
    ensures CommentsRoute(steamId, lookup, feed) == SendStatus(404, "Steam account not found")
  {
  }
}
