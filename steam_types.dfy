/** The records the pipeline produces and the responses of the remote calls
    it consumes, after JSON decoding. */
module SteamTypes {
  import opened Wrappers
  import opened Markup

  /** One comment as the client receives it. */
  datatype AuthorComment = AuthorComment(authorUrl: string, authorComment: string, personaName: string, avatarSrc: string)

  /** The comment render endpoint's answer: `total_count` and the parsed
      `comments_html` fragment (only meaningful when the count is not 0). */
  datatype FeedDocument = FeedDocument(totalCount: int, blocks: seq<Block>)

  /** ResolveVanityURL's `response` object. */
  datatype VanityData = VanityData(steamid: Option<string>, success: int, message: Option<string>)

  /** ResolveVanityURL's answer, whose `response` may be missing. */
  datatype VanityResponse = VanityResponse(response: Option<VanityData>)

  /** One entry of GetPlayerSummaries' `response.players`. */
  datatype Player = Player(steamid: string, personaname: Option<string>)

  /** `vanityUrl.response?.steamid`: undefined (None) when the `response`
      object or its `steamid` is missing. */
  function VanitySteamId(v: VanityResponse): (r: Option<string>)
    ensures r.None? <==> v.response.None? || v.response.value.steamid.None?
    ensures r.Some? ==> r == v.response.value.steamid
  {
    match v.response
    case None => None
    case Some(data) => data.steamid
  }
}
