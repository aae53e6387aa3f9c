# Steam profile comments, modelled in Dafny

The service takes a Steam profile, given as a 64-bit id or a vanity alias. It fetches the
profile's rendered comment feed and turns it into a list of comment records. The repository
carries three revisions of that pipeline, and each is modelled on its own terms:

- **The deduplicating extractor** runs in the frontend's serverless function and uses JSDOM
  (`FrontendComments`). Comment blocks are keyed by their `id` in an insertion-ordered table.
  A content node that has both an author URL and a tag-stripped text sets the record under
  its block's id. Each block then sets the stored record's avatar to the first
  space-separated `srcset` token that contains "medium". The result is the table's values in
  key order.
- **The fallback extractor** runs in the root serverless function and uses cheerio
  (`NetlifyComments`). It gives one record per block, in document order. Where a block has no
  author href or no avatar `src`, it uses a fixed author URL or a fixed avatar.
- **The early extractor** runs in the Express backend (`BackendIndex`). It keeps one
  `{authorUrl, authorComment}` pair per qualifying content node, with no dedup. The same
  module models:
  - the `"[id1,id2,...]"` list sent to the player-summary service;
  - the map from steamid to persona name built from that service's answer;
  - the `/comments/:steamId` route.
- **Shared parts:**
  - the identifier classifier `^\d+$` (`BackendStrings`);
  - the path split and the id resolution of the serverless handlers (`Routing`);
  - the `Map<string, T[]>` helpers (`ArrayMaps`).

The JavaScript semantics the pipeline relies on are written out in these modules:

- `JsStrings` covers `trim`, the global lazy replace `/<.*?>/g`, `indexOf`, `includes`,
  `split` and `join`, and ASCII `toLowerCase`.
- `JsMaps` is an insertion-ordered `Map`: `set` on a present key keeps its position.
- `Wrappers` gives `??`.

The parsed fragment is abstract (`Markup`). It is a sequence of blocks. Each block has an
optional `id`, its content nodes and an optional avatar image. Each content node has an
optional author link, an optional text element and an optional `bdi` element.

Each imperative loop of the source is a `method` with a `while` loop. The method is proved
equal to a specification function. The properties are then proved about that function. The
object the source mutates in place (`Map<string, T[]>`) is a class whose method modifies it.
The HTTP calls and the number test `!isNaN(+input)` are function parameters:

- `lookup` gives the vanity resolution's answer for an alias;
- `feed` gives the parsed comment feed for an id;
- `summaries` gives the players of the summary request for an id list;
- `isNumeric` is the number test.

Two behaviours of the code are worth stating outright:

- The frontend's avatar is the first token of `srcset.split(" ")` that contains "medium",
  whatever that token is. For `"p_full.jpg 1x, p_medium.jpg 2x"` it is the URL
  `"p_medium.jpg"`. For `"p.jpg 1x, p.jpg medium"` it is the descriptor `"medium"`.
- Only the backend answers 404 for a feed whose `total_count` is 0. The frontend's handler
  answers 200 with the body `null`, and the root handler answers 200 with `[]`.

## Model

| member | source | states |
|---|---|---|
| BackendStrings.MatchesDigitStar | backend/src/utils/strings.ts:9 | `\d*` matches the whole string iff every character is an ASCII digit |
| BackendStrings.DoesStringOnlyContainNumbers | backend/src/utils/strings.ts:9 | true iff the string is non-empty and every character is 0-9 |
| BackendStrings.EmptyIsNotNumeric | backend/src/utils/strings.ts:9 | the empty string is not an id |
| BackendStrings.NonDigitMakesAlias | backend/src/utils/strings.ts:9 | one non-digit anywhere makes the string an alias |
| BackendStrings.ConcatenationIsNumeric | backend/src/utils/strings.ts:9 | two digit-only strings, concatenated, are digit-only |
| JsStrings.IsTruthy | frontend/steam-comments/netlify/functions/comments.ts:92 | a string is falsy exactly when it is undefined or "" |
| Wrappers.Option.GetOr | frontend/steam-comments/netlify/functions/comments.ts:96 | `x ?? d` is the value when present and `d` when absent |
| JsStrings.IsLineTerminator | frontend/steam-comments/netlify/functions/comments.ts:88 | line terminators (what the regex `.` refuses) include LF and CR and no printable ASCII character |
| JsStrings.IsWhiteSpace | frontend/steam-comments/netlify/functions/comments.ts:87 | white space includes space and tab, never a line terminator, and no visible ASCII character |
| JsStrings.IsTrimmable | frontend/steam-comments/netlify/functions/comments.ts:87 | what `trim` drops: never a visible ASCII character, always space, tab, LF and CR |
| JsStrings.DropLeading | frontend/steam-comments/netlify/functions/comments.ts:87 | a suffix of the string; every character dropped satisfies the test and the first one kept does not |
| JsStrings.DropTrailing | frontend/steam-comments/netlify/functions/comments.ts:87 | a prefix of the string; every character dropped satisfies the test and the last one kept does not |
| JsStrings.Strip | frontend/steam-comments/netlify/functions/comments.ts:87 | a slice of the string whose every character before and after it satisfies the test; neither of its ends does; empty iff the whole string does; the string itself when neither of its ends does |
| JsStrings.Trim | frontend/steam-comments/netlify/functions/comments.ts:87 | the slice of the string left between trimmable-only runs at both ends; no trimmable character at either end; empty iff all trimmable; a string with nothing to trim is returned unchanged |
| JsStrings.TagCloseAt | frontend/steam-comments/netlify/functions/comments.ts:88 | a `>` after a run free of `>` and line terminators is where the tag closes |
| JsStrings.TagClose | frontend/steam-comments/netlify/functions/comments.ts:88 | the lazy `.*?` closes at the first `>`, and never across a line terminator |
| JsStrings.StripTags | frontend/steam-comments/netlify/functions/comments.ts:88 | `replace(/<.*?>/g, "")` never lengthens the text |
| JsStrings.StripTagsIsTagFree | frontend/steam-comments/netlify/functions/comments.ts:88 | no complete `<...>` span is left after stripping |
| JsStrings.StripTagsKeepsUnclosed | frontend/steam-comments/netlify/functions/comments.ts:88 | stripping never closes a `<` that had no `>` on its line |
| JsStrings.TagFreeIsFixed | frontend/steam-comments/netlify/functions/comments.ts:88 | text without tags is left as it is |
| JsStrings.StripTagsIdempotent | frontend/steam-comments/netlify/functions/comments.ts:88 | stripping twice is the same as stripping once |
| JsStrings.NoAngleUnchanged | frontend/steam-comments/netlify/functions/comments.ts:88 | text without `<` passes through unchanged |
| JsStrings.LeadingTagRemoved | frontend/steam-comments/netlify/functions/comments.ts:88 | a leading one-line tag disappears together with its contents |
| JsStrings.IndexOf | frontend/steam-comments/netlify/functions/comments.ts:128 | the first position where the separator occurs, or none when it does not occur |
| JsStrings.IndexOfFirst | frontend/steam-comments/netlify/functions/comments.ts:128 | an occurrence with none before it is what IndexOf finds |
| JsStrings.Contains | frontend/steam-comments/netlify/functions/comments.ts:110 | `includes` holds iff there is an occurrence |
| JsStrings.ContainsIsLonger | frontend/steam-comments/netlify/functions/comments.ts:110 | a string that includes `sub` is at least as long as `sub` |
| JsStrings.SplitSecond | frontend/steam-comments/netlify/functions/comments.ts:128 | `split(sep)[1]` is undefined iff `sep` does not occur; otherwise it is the slice that starts right after the first occurrence and ends at the string's end or at the next occurrence, no occurrence starts inside it, and it never contains `sep` |
| JsStrings.SplitSecondAfter | frontend/steam-comments/netlify/functions/comments.ts:128 | the text after the first separator, when free of it, is that second field |
| JsStrings.Split | frontend/steam-comments/netlify/functions/comments.ts:109 | `split(" ")` gives at least one piece, and no piece contains the separator |
| JsStrings.Join | backend/src/index.ts:104-108 | no parts give ""; otherwise the result starts with the first part, followed by the separator when there are more |
| JsStrings.JoinSplit | frontend/steam-comments/netlify/functions/comments.ts:109 | joining the pieces gives back the string |
| JsStrings.SplitJoin | backend/src/index.ts:104-108 | splitting a join of separator-free parts gives back the parts |
| JsStrings.JoinSnoc | backend/src/index.ts:105-107 | joining one more part adds a separator and the part |
| JsStrings.FindContaining | frontend/steam-comments/netlify/functions/comments.ts:110 | `find(t => t.includes(needle))`: none iff no token matches, otherwise the first one that does |
| JsStrings.ToLowerAscii | src/utils/maps.ts:31 | every character of the value, with ASCII letters lower-cased |
| JsMaps.JsMap.Get | frontend/steam-comments/netlify/functions/comments.ts:112 | defined iff the key was set, and then the value stored under it |
| JsMaps.JsMap.Set | frontend/steam-comments/netlify/functions/comments.ts:93 | keeps the map valid; a present key keeps its position |
| JsMaps.JsMap.Values | frontend/steam-comments/netlify/functions/comments.ts:119-121 | `forEach` visits one value per key, in key order |
| JsMaps.Empty | frontend/steam-comments/netlify/functions/comments.ts:64 | `new Map()` is valid and has no keys |
| JsMaps.SetThenGet | frontend/steam-comments/netlify/functions/comments.ts:93 | after `set(k, v)`, `get(k)` is `v` and every other key reads as before |
| JsMaps.SetTwice | frontend/steam-comments/netlify/functions/comments.ts:93 | a second `set` on a key overwrites the first |
| JsMaps.FirstOccurrences | frontend/steam-comments/netlify/functions/comments.ts:119 | the key order after setting keys in turn: the same members, each once, no longer than the input |
| ArrayMaps.ArrayMap.constructor | frontend/steam-comments/src/utils/maps.ts:12 | a new `Map<string, T[]>` is empty |
| ArrayMaps.PushKeyToArrayMap | frontend/steam-comments/src/utils/maps.ts:9-15 | the map is changed in place to `Pushed` of its old contents |
| ArrayMaps.Pushed | src/utils/maps.ts:14 | the contents after the push stay valid |
| ArrayMaps.PushedAppends | src/utils/maps.ts:14 | an existing array, even an empty one, gets the value at its end; a missing key gets `[value]` |
| ArrayMaps.PushedKeys | frontend/steam-comments/src/utils/maps.ts:14 | the key set becomes the old key set plus `key`; a new key goes last in order |
| ArrayMaps.PushedLeavesOthers | src/utils/maps.ts:14 | every other key keeps its array |
| ArrayMaps.PushedTotal | src/utils/maps.ts:14 | the number of stored values grows by exactly one |
| ArrayMaps.TotalValues | src/utils/maps.ts:14 | no key's array is longer than the number of values in the map |
| ArrayMaps.SumUnrelated | src/utils/maps.ts:14 | setting a key outside the listed ones leaves their total unchanged |
| ArrayMaps.SumUpdate | src/utils/maps.ts:14 | replacing one array changes the total by the difference in length |
| ArrayMaps.MatchingValues | src/utils/maps.ts:29-36 | never more values than the listed keys hold |
| ArrayMaps.MatchingValuesSound | src/utils/maps.ts:29-36 | every value in the result is stored under a non-empty key that includes the needle |
| ArrayMaps.MatchingValuesComplete | src/utils/maps.ts:29-36 | every value stored under such a key is in the result |
| ArrayMaps.MatchingValuesMembers | src/utils/maps.ts:29-36 | a value is in the result iff it is stored under a selected key |
| ArrayMaps.PopulateArrayWithValuesFromMap | src/utils/maps.ts:25-37 | both directions of membership for `value.toLowerCase()`; reads the map and does not change it |
| ArrayMaps.MatchingValuesAppend | src/utils/maps.ts:29-36 | the result follows key insertion order |
| ArrayMaps.EmptyKeyIgnored | src/utils/maps.ts:35 | the key "" never contributes, wherever it stands |
| ArrayMaps.KeysAreCaseSensitive | src/utils/maps.ts:31 | keys are not lower-cased: a key without lower-case letters never matches a value that has a letter |
| Markup.JsdomHref | frontend/steam-comments/netlify/functions/comments.ts:79-83 | `anchor?.href` is undefined iff there is no anchor |
| Markup.StrippedText | frontend/steam-comments/netlify/functions/comments.ts:85-88 | undefined iff there is no text element; otherwise tag-free and no longer than its `innerHTML` |
| Markup.ContentNodes | backend/src/index.ts:66-68 | every content node of every block is listed |
| Routing.PathSteamId | frontend/steam-comments/netlify/functions/comments.ts:128 | "" when "/api/comments/" is absent; otherwise the slice of the path from right after its first occurrence to the path's end or the next occurrence, with no occurrence starting inside it; the id never contains it |
| Routing.PathSteamIdAfterPrefix | netlify/functions/comments.ts:100 | prefix, separator, then an id free of it: the id is read back |
| Routing.PathSteamIdOfApiPath | netlify/functions/comments.ts:100 | "/api/comments/" followed by the id gives the id |
| SteamTypes.VanitySteamId | netlify/functions/comments.ts:34 | undefined iff the `response` object or its `steamid` is missing; otherwise that steamid |
| Routing.GetValidSteamId64 | netlify/functions/comments.ts:25-38 | input the number test accepts is returned unchanged with no lookup; otherwise the lookup's `response?.steamid` (the same in frontend/steam-comments/netlify/functions/comments.ts:20-33) |
| FrontendComments.PersonaName | frontend/steam-comments/netlify/functions/comments.ts:90-97 | "" without a `bdi`; otherwise the trimmed name |
| FrontendComments.ContentRecord | frontend/steam-comments/netlify/functions/comments.ts:79-99 | a record always has a non-empty author URL, a non-empty tag-free text and avatar "" |
| FrontendComments.ContentRecordFields | frontend/steam-comments/netlify/functions/comments.ts:92-98 | a record exists iff both the URL and the text are truthy, and it holds exactly those, the name and "" |
| FrontendComments.NodeRecords | frontend/steam-comments/netlify/functions/comments.ts:78 | one candidate per content node, in order |
| FrontendComments.LastSome | frontend/steam-comments/netlify/functions/comments.ts:93 | repeated `set` under one key leaves the last present value; none iff none is present |
| FrontendComments.LastSomeIsLast | frontend/steam-comments/netlify/functions/comments.ts:93 | that value sits at a position after which nothing is present |
| FrontendComments.LastRecord | frontend/steam-comments/netlify/functions/comments.ts:78-100 | a block's surviving record has a URL and a text and avatar "" |
| FrontendComments.LastRecordNone | frontend/steam-comments/netlify/functions/comments.ts:92 | a block leaves no record iff none of its nodes qualifies |
| FrontendComments.MediumImageSrc | frontend/steam-comments/netlify/functions/comments.ts:107-114 | "" without a srcset or when no token contains "medium"; otherwise the first token of `srcset.split(" ")` that contains "medium", which has no space |
| FrontendComments.View | frontend/steam-comments/netlify/functions/comments.ts:70-114 | keyed by the block's `id`; its record, if any, has a URL and a text and no avatar; its avatar is "" or contains "medium", and is "" without a srcset |
| FrontendComments.Views | frontend/steam-comments/netlify/functions/comments.ts:70 | one view per block, in document order |
| FrontendComments.ViewsHaveAuthorAndText | frontend/steam-comments/netlify/functions/comments.ts:92 | every record a block stores has a URL and a text |
| FrontendComments.Stored | frontend/steam-comments/netlify/functions/comments.ts:92-99 | the map stays valid; `get(id)` is the record when there is one and is unchanged otherwise; no other key changes; a present id keeps its place |
| FrontendComments.StoredSnoc | frontend/steam-comments/netlify/functions/comments.ts:92-99 | one more content node: its record, if any, is set over what is stored |
| FrontendComments.StoreContentRecords | frontend/steam-comments/netlify/functions/comments.ts:78-100 | the inner loop leaves the block's last qualifying record under its id, or leaves the map as it was |
| FrontendComments.ProcessBlock | frontend/steam-comments/netlify/functions/comments.ts:70-116 | the map stays valid; the keys are those after the content nodes (the avatar update adds none); the id has an entry iff it had one or the block has a record, and that entry carries the block's avatar; no other key changes |
| FrontendComments.CommentTable | frontend/steam-comments/netlify/functions/comments.ts:64-116 | the table after all blocks is a valid map: each key listed once, exactly the keys that have entries |
| FrontendComments.ProcessCommentBlock | frontend/steam-comments/netlify/functions/comments.ts:70-116 | one turn of the outer loop is `ProcessBlock` on the block's view |
| FrontendComments.CollectValues | frontend/steam-comments/netlify/functions/comments.ts:119-121 | the pushed values are the map's values in key order |
| FrontendComments.GetProfileCommentsFromSteamId64 | frontend/steam-comments/netlify/functions/comments.ts:56-124 | the loops compute `ProfileComments` of the feed |
| FrontendComments.ProfileComments | frontend/steam-comments/netlify/functions/comments.ts:56-59 | null iff `total_count` is 0 |
| FrontendComments.RecordIds | frontend/steam-comments/netlify/functions/comments.ts:93 | reference: the ids of blocks that store a record, no more of them than blocks |
| FrontendComments.RecordFor | frontend/steam-comments/netlify/functions/comments.ts:93 | reference: the last record any block with the id stores |
| FrontendComments.AvatarFor | frontend/steam-comments/netlify/functions/comments.ts:112-115 | "" when no block has the id; a non-empty avatar is that of a block with the id |
| FrontendComments.CommentTableKeys | frontend/steam-comments/netlify/functions/comments.ts:64-115 | key order is the first-occurrence order of the ids that stored a record; the avatar update never adds a key |
| FrontendComments.CommentTableEntry | frontend/steam-comments/netlify/functions/comments.ts:93-115 | an id has an entry iff some block with it stored a record; the entry is the last such record with the avatar of the last block with that id |
| FrontendComments.RecordIdsMembers | frontend/steam-comments/netlify/functions/comments.ts:93 | every id that stored a record is listed |
| FrontendComments.ProfileCommentsResult | frontend/steam-comments/netlify/functions/comments.ts:64-121 | one record per distinct storing id, in first-storing order, at most one per block, each the id's last record with its last avatar |
| FrontendComments.ProcessBlockOnStoredId | frontend/steam-comments/netlify/functions/comments.ts:93-115 | a known id keeps the key order; its record is replaced or kept, and gets this block's avatar |
| FrontendComments.ProcessBlockOnNewId | frontend/steam-comments/netlify/functions/comments.ts:92-115 | a new id without a record adds nothing; with a record it is appended and gets its avatar |
| FrontendComments.TwoBlocks | frontend/steam-comments/netlify/functions/comments.ts:70-116 | the table of one storing block holds just its record with its avatar |
| FrontendComments.SameIdOverwrites | frontend/steam-comments/netlify/functions/comments.ts:75-93 | two storing blocks with the same id give one record, the second |
| FrontendComments.LaterBlockSetsAvatar | frontend/steam-comments/netlify/functions/comments.ts:112-115 | a later block with the same id but no record sets its avatar on the stored record |
| FrontendComments.Handler | frontend/steam-comments/netlify/functions/comments.ts:127-143 | 404 with no body iff no truthy id resolves; otherwise 200 with the extractor's result |
| FrontendComments.HandlerNumericPassThrough | frontend/steam-comments/netlify/functions/comments.ts:128-142 | a numeric id after the prefix is fetched as it is, whatever the lookup says |
| FrontendComments.HandlerWithoutPrefix | frontend/steam-comments/netlify/functions/comments.ts:128-135 | a path without the prefix gives "" and, when `+""` counts as a number, 404 |
| NetlifyComments.FirstLink | netlify/functions/comments.ts:75-76 | `prop("href")` reads the first author link: none iff no node has a link, otherwise the link of a node with no link before it |
| NetlifyComments.SelectionText | netlify/functions/comments.ts:78-82 | `text()` of an empty selection is "" |
| NetlifyComments.SelectionTextSingle | netlify/functions/comments.ts:78-82 | one match gives its own text |
| NetlifyComments.AvatarSrc | netlify/functions/comments.ts:84 | none iff the block has no image or the image has no `src`; otherwise that `src` |
| NetlifyComments.AuthorUrl | netlify/functions/comments.ts:66-77 | the fixed URL only when the link or its href is missing; an href that is present, even "", is used |
| NetlifyComments.AvatarOrFallback | netlify/functions/comments.ts:67-85 | the image's `src`, or the fixed `_medium.jpg` URL when there is none |
| NetlifyComments.BdiElements | netlify/functions/comments.ts:78 | one selection entry per comment node, its `bdi` element, in node order |
| NetlifyComments.TextElements | netlify/functions/comments.ts:79-82 | one selection entry per comment node, its comment-text element, in node order |
| NetlifyComments.TrimmedText | netlify/functions/comments.ts:78-82 | the result has no trimmable ends |
| NetlifyComments.Record | netlify/functions/comments.ts:74-92 | the block's record: both fallbacks as above, with a trimmed name and text |
| NetlifyComments.AuthorUrlFromBlock | netlify/functions/comments.ts:75-77 | the URL is the fixed one or an href of the block |
| NetlifyComments.EmptyHrefKept | netlify/functions/comments.ts:75-77 | an empty href is kept, since `??` replaces only a missing one |
| NetlifyComments.Records | netlify/functions/comments.ts:73-93 | exactly one record per block, in document order |
| NetlifyComments.ProfileComments | netlify/functions/comments.ts:48-71 | [] for a falsy id or a zero count; otherwise one record per block |
| NetlifyComments.GetProfileCommentsFromSteamId64 | netlify/functions/comments.ts:45-97 | the `.each` loop computes `ProfileComments` |
| NetlifyComments.Handler | netlify/functions/comments.ts:99-115 | 404 with no body iff no truthy id resolves; otherwise 200 with the list |
| NetlifyComments.HandlerNumericPassThrough | netlify/functions/comments.ts:100-114 | a numeric id is fetched as it is: 200 with one record per block, or [] for a zero count |
| NetlifyComments.UnresolvedAliasNotFound | netlify/functions/comments.ts:103-107 | an alias the lookup does not resolve gives 404 |
| BackendIndex.GetValidSteamId64 | backend/src/index.ts:25-39 | digit-only input is returned with no lookup; an empty or absent steamid gives undefined; a resolved id is never empty |
| BackendIndex.NodePair | backend/src/index.ts:71-85 | a pair always has a non-empty URL and a non-empty, tag-free text |
| BackendIndex.NodePairFields | backend/src/index.ts:83-84 | a pair exists iff both the href and the stripped text are truthy, and it holds those two |
| BackendIndex.NodePairs | backend/src/index.ts:71 | one candidate per content node, in order |
| BackendIndex.Pairs | backend/src/index.ts:71-86 | never more pairs than content nodes |
| BackendIndex.PairsMembers | backend/src/index.ts:83-85 | every pair comes from a node, and every qualifying node gives its pair |
| BackendIndex.PairsAppend | backend/src/index.ts:71-86 | document order is kept |
| BackendIndex.RepeatedNodeKept | backend/src/index.ts:83-85 | no dedup: a repeated qualifying node gives its pair twice |
| BackendIndex.CommentPairs | backend/src/index.ts:62-95 | null iff `total_count` is 0; otherwise at most one pair per content node |
| BackendIndex.GetProfileCommentsFromSteamId64 | backend/src/index.ts:60-95 | the `forEach` loop computes `CommentPairs` |
| BackendIndex.IdList | backend/src/index.ts:104-108 | bracketed, and between the brackets the ids joined by "," |
| BackendIndex.Formatted | backend/src/index.ts:104-107 | starts with "["; ends with "," after all but the last id; after every id, adding "]" gives the list |
| BackendIndex.FormattedStep | backend/src/index.ts:105-107 | each id adds itself and, unless it is the last, a comma |
| BackendIndex.FormatSteamIdList | backend/src/index.ts:104-108 | the builder produces "[" + the ids joined by "," + "]" |
| BackendIndex.IdListEmpty | backend/src/index.ts:104-108 | an empty list gives "[]" |
| BackendIndex.IdListRoundTrip | backend/src/index.ts:104-108 | between the brackets, splitting at commas gives back comma-free ids |
| BackendIndex.NumericIdListRoundTrip | backend/src/index.ts:104-108 | digit-only ids always read back |
| BackendIndex.PersonaNames | backend/src/index.ts:114-118 | the map the players leave is valid |
| BackendIndex.PersonaNamesKeys | backend/src/index.ts:114-118 | its keys are the steamids, once each, in first-seen order |
| BackendIndex.PersonaNamesLastWins | backend/src/index.ts:117 | a steamid maps to its last player's `personaname ?? ""` |
| BackendIndex.PersonaNamesDomain | backend/src/index.ts:116-117 | an id is a key iff some player has it |
| BackendIndex.BuildPersonaNameMap | backend/src/index.ts:114-120 | the loop computes `PersonaNames` |
| BackendIndex.GetPersonaNameFromSteamId64 | backend/src/index.ts:103-121 | the map for the players the summaries give for the formatted id list |
| BackendIndex.CommentsRoute | backend/src/index.ts:137-155 | 404 "Steam account not found" without an id, 404 "No comments found" for a zero count, otherwise the pairs, even none |
| BackendIndex.RouteDigitsPassThrough | backend/src/index.ts:137-154 | an all-digit parameter is fetched as it is |
| BackendIndex.RouteEmptySteamIdNotFound | backend/src/index.ts:137-143 | an alias whose steamid is "" is not found |

## Left out

- The HTTP calls (vanity resolution, the comment render endpoint, player summaries) and `process.env`: their answers are function parameters, and the request URLs are not modelled.
- The HTML parsers (JSDOM, cheerio), CSS selector matching and `innerHTML` serialisation: the fragment arrives as the abstract block sequence. JSDOM's resolution of `href` against the document URL is not modelled; the attribute value is used as it is.
- `!isNaN(+input)`: JavaScript number coercion on floating point, passed in as the `isNumeric` parameter.
- JsStrings.ToLowerAscii: lower-cases ASCII letters only, not the full Unicode mapping of `toLowerCase`.
- Strings are sequences of Unicode scalar values, not of UTF-16 code units. A character outside the Basic Multilingual Plane is one element here and two code units in JavaScript, so lengths and the positions `indexOf` returns differ there, and the regular-expression `.` steps over it in one step rather than two. The separators, the needle "medium" and the tag delimiters are all single code units, so the strings `includes`, `split` and the tag replace produce are not affected.
- JSON decoding and `JSON.stringify`: the handlers' bodies are the lists themselves.
- FrontendComments.GetProfileCommentsFromSteamId64: requires every block to have an `id` and an avatar image when the count is not 0, where the source throws at its non-null assertions.
- BackendIndex.GetValidSteamId64: requires the lookup's `response` to be present for a non-digit input, where the source throws on `json.response.steamid`.
- The in-place `existingCommentObject.avatarSrc = ...` is modelled as replacing the record in the map; the object is referenced only from the map.
- ArrayMaps.PushKeyToArrayMap: an array pushed in place is modelled as the map's new value, so another reference to the same array is not seen to change.
- Express setup, `listen`, the empty `/test` route, the Vue application, the client fetch wrappers and the error store: plumbing with no logic to prove.
- Async sequencing: the awaits run in straight-line order.
