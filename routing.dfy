/** What the serverless handlers share: the reply they return and how they
    take the identifier out of the request path. */
module Routing {
  import opened Wrappers
  import opened JsStrings
  import opened SteamTypes

  /** A handler's reply; `body` None means the reply carries no body. */
  datatype Response<B> = Response(statusCode: int, body: Option<B>)

  const CommentsPath := "/api/comments/"

  /** `event.path.split("/api/comments/")[1] ?? ""`: the text after the first
      "/api/comments/" up to its next occurrence, or "" when it does not occur.
      The identifier never contains the separator; when the separator occurs,
      it is the slice of the path that starts right after the first
      occurrence and ends at the path's end or at the next occurrence. */
  function PathSteamId(path: string): (r: string)
    ensures !Contains(path, CommentsPath) ==> r == ""
    ensures !Contains(r, CommentsPath)
    ensures Contains(path, CommentsPath) ==> FieldAt(path, CommentsPath, IndexOf(path, CommentsPath).value + |CommentsPath|, r)
  {
    assert !OccursAt("", CommentsPath, 0);
    SplitSecond(path, CommentsPath).GetOr("")
  }

  /** A path made of a prefix, the separator at its first occurrence and an
      identifier that does not contain the separator yields that identifier. */
  lemma PathSteamIdAfterPrefix(prefix: string, id: string)
    requires IndexOf(prefix + CommentsPath, CommentsPath) == Some(|prefix|)
    requires !Contains(id, CommentsPath)
    ensures PathSteamId(prefix + CommentsPath + id) == id
  {
    SplitSecondAfter(prefix, CommentsPath, id);
  }

  /** The usual path, the separator followed by the identifier. */
  lemma PathSteamIdOfApiPath(id: string)
    requires !Contains(id, CommentsPath)
    ensures PathSteamId(CommentsPath + id) == id
  {
    var sep := CommentsPath;
    assert [] + sep == sep;
    assert OccursAt(sep, sep, 0);
    IndexOfFirst(sep, sep, 0);
    PathSteamIdAfterPrefix([], id);
  }

  /** `getValidSteamId64`, written alike in both serverless functions: input
      the number test accepts is returned as it is and the lookup's answer is
      not consulted; other input resolves to the lookup's `response?.steamid`.
      The number test and the lookup are parameters. */
  function GetValidSteamId64(input: string, isNumeric: string -> bool, lookup: string -> VanityResponse): (r: Option<string>)
    ensures isNumeric(input) ==> r == Some(input)
    ensures !isNumeric(input) ==> r == VanitySteamId(lookup(input))
  {
    if !isNumeric(input) then VanitySteamId(lookup(input)) else Some(input)
  }
}
