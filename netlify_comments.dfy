/** The fallback extractor of the root serverless function, which reads the
    fragment with cheerio: one record per comment block, in document order,
    with a fixed author URL and a fixed avatar where the block has none. */
module NetlifyComments {
  import opened Wrappers
  import opened JsStrings
  import opened Markup
  import opened SteamTypes
  import opened Routing
  import opened Sequences

  const FallbackAuthorUrl := "https://steamcommunity.com/"
  const FallbackAvatarSrc := "https://cdn.cloudflare.steamstatic.com/steamcommunity/public/images/avatars/48/4888d158c81bc8f1d7644321d9eb78b0048a9bda_medium.jpg"

  /** The block's first author link in document order: the element whose
      `href` cheerio's `.prop("href")` reads. It is absent exactly when no
      node has a link, and otherwise is the link of a node that no earlier
      node with a link precedes. */
  function FirstLink(cs: seq<ContentNode>): (r: Option<AuthorLink>)
    ensures r.None? <==> forall i :: 0 <= i < |cs| ==> cs[i].authorLink.None?
    ensures r.Some? ==>
              exists i :: 0 <= i < |cs| && cs[i].authorLink == r &&
                          forall j :: 0 <= j < i ==> cs[j].authorLink.None?
  {
    if cs == [] then None
    else if cs[0].authorLink.Some? then cs[0].authorLink
    else
      var r := FirstLink(cs[1..]);
      assert forall i :: 1 <= i < |cs| ==> cs[1..][i - 1] == cs[i];
      r
  }

  /** cheerio's `.text()` over a selection: the text contents of the matched
      elements concatenated in document order; "" when nothing matches. */
  function SelectionText(es: seq<Option<TextElement>>): (r: string)
    ensures (forall i :: 0 <= i < |es| ==> es[i].None?) ==> r == ""
  {
    if es == [] then ""
    else SelectionText(es[..|es| - 1]) + (match es[|es| - 1] case None => "" case Some(e) => e.textContent)
  }

  /** A single match gives that element's text. */
  lemma SelectionTextSingle(e: TextElement)
    ensures SelectionText([Some(e)]) == e.textContent
  {
    assert [Some(e)][..0] == [];
  }

  /** The matches of `$(author).find("bdi")` and of
      `$(el).find(".commentthread_comment_text")` in a block. */
  function BdiElements(cs: seq<ContentNode>): (r: seq<Option<TextElement>>)
    ensures |r| == |cs| && forall i :: 0 <= i < |cs| ==> r[i] == cs[i].bdi
  {
    seq(|cs|, i requires 0 <= i < |cs| => cs[i].bdi)
  }

  function TextElements(cs: seq<ContentNode>): (r: seq<Option<TextElement>>)
    ensures |r| == |cs| && forall i :: 0 <= i < |cs| ==> r[i] == cs[i].text
  {
    seq(|cs|, i requires 0 <= i < |cs| => cs[i].text)
  }

  /** `avatar img` and its `.prop("src")`; None without an image or without
      a `src`. */
  function AvatarSrc(b: Block): (r: Option<string>)
    ensures r.None? <==> b.avatar.None? || b.avatar.value.src.None?
    ensures r.Some? ==> r == b.avatar.value.src
  {
    match b.avatar
    case None => None
    case Some(img) => img.src
  }

  /** `$(author).find(".commentthread_author_link").prop("href") ?? fallbackAuthorUrl`. */
  function AuthorUrl(cs: seq<ContentNode>): (r: string)
    ensures FirstLink(cs).None? || FirstLink(cs).value.href.None? ==> r == FallbackAuthorUrl
    ensures FirstLink(cs).Some? && FirstLink(cs).value.href.Some? ==> r == FirstLink(cs).value.href.value
  {
    match FirstLink(cs)
    case None => FallbackAuthorUrl
    case Some(link) => link.href.GetOr(FallbackAuthorUrl)
  }

  /** `... .prop("src") ?? fallbackAvatarSrc`. */
  function AvatarOrFallback(b: Block): (r: string)
    ensures AvatarSrc(b).None? ==> r == FallbackAvatarSrc
    ensures AvatarSrc(b).Some? ==> r == AvatarSrc(b).value
  {
    AvatarSrc(b).GetOr(FallbackAvatarSrc)
  }

  /** `.text().trim()` of a selection. */
  function TrimmedText(es: seq<Option<TextElement>>): (r: string)
    ensures NoTrimmableEnds(r)
  {
    Trim(SelectionText(es))
  }

  /** The record the `.each` callback pushes for one block. The author URL is
      the first link's href, and the fixed URL only when that href (or the
      link itself) is missing: an empty href is kept. The avatar is the
      image's `src`, or the fixed image when there is none. The name and the
      text are trimmed. */
  function Record(b: Block): (r: AuthorComment)
    ensures FirstLink(b.contents).None? || FirstLink(b.contents).value.href.None? ==> r.authorUrl == FallbackAuthorUrl
    ensures FirstLink(b.contents).Some? && FirstLink(b.contents).value.href.Some? ==>
              r.authorUrl == FirstLink(b.contents).value.href.value
    ensures AvatarSrc(b).None? ==> r.avatarSrc == FallbackAvatarSrc
    ensures AvatarSrc(b).Some? ==> r.avatarSrc == AvatarSrc(b).value
    ensures NoTrimmableEnds(r.personaName) && NoTrimmableEnds(r.authorComment)
  {
    AuthorComment(AuthorUrl(b.contents), TrimmedText(TextElements(b.contents)),
                  TrimmedText(BdiElements(b.contents)), AvatarOrFallback(b))
  }

  /** The author URL is the fixed one or the href of a link in the block. */
  lemma AuthorUrlFromBlock(b: Block)
    ensures Record(b).authorUrl == FallbackAuthorUrl ||
            exists i :: 0 <= i < |b.contents| && b.contents[i].authorLink == Some(AuthorLink(Some(Record(b).authorUrl)))
  {
    var first := FirstLink(b.contents);
    if first.Some? && first.value.href.Some? {
      var i :| 0 <= i < |b.contents| && b.contents[i].authorLink == first &&
               forall j :: 0 <= j < i ==> b.contents[j].authorLink.None?;
      assert b.contents[i].authorLink == Some(AuthorLink(Some(Record(b).authorUrl)));
    }
  }

  /** A block whose first link has an empty href keeps the empty URL. */
  lemma EmptyHrefKept(b: Block)
    requires FirstLink(b.contents) == Some(AuthorLink(Some("")))
    ensures Record(b).authorUrl == ""
  {
  }

  /** One record per block, in document order. */
  function Records(blocks: seq<Block>): (r: seq<AuthorComment>)
    ensures |r| == |blocks| && forall i :: 0 <= i < |blocks| ==> r[i] == Record(blocks[i])
  {
    seq(|blocks|, i requires 0 <= i < |blocks| => Record(blocks[i]))
  }

  /** What `getProfileCommentsFromSteamId64` returns for an id, the feed
      fetched for an id being a parameter: [] for a falsy id or a zero
      `total_count`, otherwise one record per block. */
  function ProfileComments(steamId64: Option<string>, feed: string -> FeedDocument): (r: seq<AuthorComment>)
    ensures !IsTruthy(steamId64) ==> r == []
    ensures IsTruthy(steamId64) && feed(steamId64.value).totalCount == 0 ==> r == []
    ensures IsTruthy(steamId64) && feed(steamId64.value).totalCount != 0 ==>
              r == Records(feed(steamId64.value).blocks)
  {
    if !IsTruthy(steamId64) then []
    else
      var doc := feed(steamId64.value);
      if doc.totalCount == 0 then [] else Records(doc.blocks)
  }

  /** The extractor as the source writes it: the `.each` loop pushing one
      record per block. */
  method GetProfileCommentsFromSteamId64(steamId64: Option<string>, feed: string -> FeedDocument)
    returns (profileComments: seq<AuthorComment>)
    ensures profileComments == ProfileComments(steamId64, feed)
  {
    if !IsTruthy(steamId64) {
      return [];
    }
    var steamCommentData := feed(steamId64.value);
    profileComments := [];
    if steamCommentData.totalCount == 0 {
      return [];
    }
    ghost var records := Records(steamCommentData.blocks);
    var i := 0;
    while i < |steamCommentData.blocks|
      invariant 0 <= i <= |steamCommentData.blocks|
      invariant profileComments == records[..i]
    {
      TakeOneMore(records, i);
      profileComments := profileComments + [Record(steamCommentData.blocks[i])];
      i := i + 1;
    }
    assert records[..i] == records;
  }

  /** `handler`: 404 without a body when no truthy id resolves, otherwise 200
      with the list (JSON serialisation is not modelled). */
  function Handler(path: string, isNumeric: string -> bool, lookup: string -> VanityResponse, feed: string -> FeedDocument): (r: Response<seq<AuthorComment>>)
    ensures var id := GetValidSteamId64(PathSteamId(path), isNumeric, lookup);
            && (r.statusCode == 404 <==> !IsTruthy(id))
            && (r.statusCode == 404 ==> r.body.None?)
            && (r.statusCode != 404 ==> r.statusCode == 200 && r.body == Some(ProfileComments(id, feed)))
  {
    var steamId64 := GetValidSteamId64(PathSteamId(path), isNumeric, lookup);
    if !IsTruthy(steamId64) then Response(404, None)
    else Response(200, Some(ProfileComments(steamId64, feed)))
  }

  /** A numeric identifier after "/api/comments/" is fetched as it is: the
      answer is 200 with one record per block of its feed (none when the
      count is 0), whatever the lookup would answer. */
  lemma HandlerNumericPassThrough(id: string, isNumeric: string -> bool, lookup: string -> VanityResponse, feed: string -> FeedDocument)
    requires id != "" && isNumeric(id) && !Contains(id, CommentsPath)
    ensures Handler(CommentsPath + id, isNumeric, lookup, feed).statusCode == 200
    ensures feed(id).totalCount != 0 ==> Handler(CommentsPath + id, isNumeric, lookup, feed).body == Some(Records(feed(id).blocks))
    ensures feed(id).totalCount == 0 ==> Handler(CommentsPath + id, isNumeric, lookup, feed).body == Some([])
  {
    PathSteamIdOfApiPath(id);
  }

  /** An alias the lookup cannot resolve gives 404. */
  lemma UnresolvedAliasNotFound(id: string, isNumeric: string -> bool, lookup: string -> VanityResponse, feed: string -> FeedDocument)
    requires !isNumeric(id) && !Contains(id, CommentsPath)
    requires !IsTruthy(VanitySteamId(lookup(id)))
    ensures Handler(CommentsPath + id, isNumeric, lookup, feed) == Response(404, None)
  {
    PathSteamIdOfApiPath(id);
  }
}
