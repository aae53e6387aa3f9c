/** The deduplicating extractor of the frontend's serverless function: comment
    blocks are keyed by their `id` in an insertion-ordered table, a block's
    record is the last content node with both an author URL and a text, the
    avatar of the last block with that id is set on the stored record, and the
    table's values are the result. */
module FrontendComments {
  import opened Wrappers
  import opened JsStrings
  import opened JsMaps
  import opened Markup
  import opened SteamTypes
  import opened Routing
  import opened Sequences

  /** What the extractor dereferences without a check: every block has an
      `id` attribute and an avatar `img`. */
  predicate WellFormedBlock(b: Block) {
    b.id.Some? && b.avatar.Some?
  }

  predicate WellFormed(blocks: seq<Block>) {
    forall i :: 0 <= i < |blocks| ==> WellFormedBlock(blocks[i])
  }

  /** `c.querySelector("bdi")?.innerHTML.trim()` followed by `?? ""`. */
  function PersonaName(c: ContentNode): (r: string)
    ensures c.bdi.None? ==> r == ""
    ensures NoTrimmableEnds(r)
  {
    match c.bdi
    case None => ""
    case Some(t) => Trim(t.innerHtml)
  }

  /** The fields a stored record always has: an author URL and a comment text,
      both non-empty, and a text with no complete tag left in it. */
  predicate HasAuthorAndText(rec: AuthorComment) {
    rec.authorUrl != "" && rec.authorComment != "" && TagFree(rec.authorComment)
  }

  /** The record one content node contributes: present exactly when both its
      author URL and its stripped text are truthy, with the avatar still "". */
  function ContentRecord(c: ContentNode): (r: Option<AuthorComment>)
    ensures r.Some? ==> HasAuthorAndText(r.value) && r.value.avatarSrc == ""
  {
    var authorUrl := JsdomHref(c);
    var commentText := StrippedText(c);
    if IsTruthy(authorUrl) && IsTruthy(commentText) then
      Some(AuthorComment(authorUrl.value, commentText.value, PersonaName(c), ""))
    else None
  }

  /** A content node has a record exactly when both its author URL and its
      stripped text are truthy; the record holds that URL, that text and the
      trimmed persona name, and an empty avatar. */
  lemma ContentRecordFields(c: ContentNode)
    ensures ContentRecord(c).Some? <==> IsTruthy(JsdomHref(c)) && IsTruthy(StrippedText(c))
    ensures ContentRecord(c).Some? ==>
              ContentRecord(c).value == AuthorComment(JsdomHref(c).value, StrippedText(c).value, PersonaName(c), "")
  {
  }

  /** The records a block's content nodes contribute, node by node. */
  function NodeRecords(cs: seq<ContentNode>): (r: seq<Option<AuthorComment>>)
    ensures |r| == |cs| && forall i :: 0 <= i < |cs| ==> r[i] == ContentRecord(cs[i])
  {
    seq(|cs|, i requires 0 <= i < |cs| => ContentRecord(cs[i]))
  }

  /** What successive `set`s under one key leave: the last present value. */
  function LastSome<T>(xs: seq<Option<T>>): (r: Option<T>)
    ensures r.None? <==> forall i :: 0 <= i < |xs| ==> xs[i].None?
    ensures r.Some? ==> r in xs
  {
    if xs == [] then None
    else if xs[|xs| - 1].Some? then xs[|xs| - 1]
    else
      var prefix := xs[..|xs| - 1];
      assert forall i :: 0 <= i < |prefix| ==> prefix[i] == xs[i];
      LastSome(prefix)
  }

  /** One more value: a present one replaces, an absent one changes nothing. */
  lemma LastSomeSnoc<T>(xs: seq<Option<T>>, x: Option<T>)
    ensures LastSome(xs + [x]) == if x.Some? then x else LastSome(xs)
  {
    assert (xs + [x])[..|xs|] == xs;
  }

  /** The value LastSome gives is present at a position after which every
      value is absent. */
  lemma {:induction false} LastSomeIsLast<T>(xs: seq<Option<T>>)
    requires LastSome(xs).Some?
    ensures exists i :: && 0 <= i < |xs| && xs[i] == LastSome(xs)
                        && forall j :: i < j < |xs| ==> xs[j].None?
  {
    var last := |xs| - 1;
    if xs[last].None? {
      var prefix := xs[..last];
      LastSomeIsLast(prefix);
      var i :| && 0 <= i < |prefix| && prefix[i] == LastSome(prefix)
               && forall j :: i < j < |prefix| ==> prefix[j].None?;
      assert xs[i] == prefix[i];
      assert forall j :: i < j < |xs| ==> xs[j].None? by {
        forall j | i < j < |xs|
          ensures xs[j].None?
        {
          if j < last {
            assert xs[j] == prefix[j];
          }
        }
      }
    }
  }

  /** The record a block's content nodes leave behind under its id: the last
      content node with a record wins, and none is left when no node has one. */
  function LastRecord(cs: seq<ContentNode>): (r: Option<AuthorComment>)
    ensures r.Some? ==> HasAuthorAndText(r.value) && r.value.avatarSrc == ""
  {
    var records := NodeRecords(cs);
    var r := LastSome(records);
    assert r.Some? ==> exists i :: 0 <= i < |cs| && records[i] == r;
    r
  }

  /** A block leaves no record exactly when none of its content nodes has one. */
  lemma LastRecordNone(cs: seq<ContentNode>)
    ensures LastRecord(cs).None? <==> forall i :: 0 <= i < |cs| ==> ContentRecord(cs[i]).None?
  {
    var records := NodeRecords(cs);
    assert forall i :: 0 <= i < |cs| ==> records[i] == ContentRecord(cs[i]);
  }

  /** `srcset?.split(" ").find(src => src.includes("medium")) ?? ""`: the first
      space-separated token of `srcset` that contains "medium", or "". A found
      token is never "", so "" means there was no such token. */
  function MediumImageSrc(img: AvatarImg): (r: string)
    ensures img.srcset.None? ==> r == ""
    ensures img.srcset.Some? && r == "" ==> forall i :: 0 <= i < |Split(img.srcset.value, ' ')| ==> !Contains(Split(img.srcset.value, ' ')[i], "medium")
    ensures img.srcset.Some? && r != "" ==>
              exists i :: 0 <= i < |Split(img.srcset.value, ' ')| && Split(img.srcset.value, ' ')[i] == r
                          && forall j :: 0 <= j < i ==> !Contains(Split(img.srcset.value, ' ')[j], "medium")
    ensures r != "" ==> Contains(r, "medium") && ' ' !in r
  {
    match img.srcset
    case None => ""
    case Some(s) =>
      var tokens := Split(s, ' ');
      var found := FindContaining(tokens, "medium");
      if found.Some? then
        var i :| 0 <= i < |tokens| && tokens[i] == found.value && Contains(tokens[i], "medium")
                 && forall j :: 0 <= j < i ==> !Contains(tokens[j], "medium");
        ContainsIsLonger(found.value, "medium");
        found.value
      else ""
  }

  /** What one block contributes to the table: its id, the record its
      content nodes leave (if any) and its medium avatar token. */
  datatype BlockView = BlockView(id: string, record: Option<AuthorComment>, avatar: string)

  /** A block's view: keyed by its `id`, with a record (if any) that has an
      author URL and a text and no avatar yet, and an avatar token that is ""
      or contains "medium". */
  function View(b: Block): (r: BlockView)
    requires WellFormedBlock(b)
    ensures r.id == b.id.value
    ensures r.record.Some? ==> HasAuthorAndText(r.record.value) && r.record.value.avatarSrc == ""
    ensures r.avatar != "" ==> Contains(r.avatar, "medium")
    ensures b.avatar.value.srcset.None? ==> r.avatar == ""
  {
    BlockView(b.id.value, LastRecord(b.contents), MediumImageSrc(b.avatar.value))
  }

  /** The views of the blocks, in document order. */
  function Views(blocks: seq<Block>): (r: seq<BlockView>)
    requires WellFormed(blocks)
    ensures |r| == |blocks| && forall i :: 0 <= i < |blocks| ==> r[i] == View(blocks[i])
  {
    seq(|blocks|, i requires 0 <= i < |blocks| => View(blocks[i]))
  }

  /** A stored record always has an author URL and a text. */
  predicate RecordsHaveAuthorAndText(vs: seq<BlockView>) {
    forall i :: 0 <= i < |vs| && vs[i].record.Some? ==> HasAuthorAndText(vs[i].record.value)
  }

  lemma ViewsHaveAuthorAndText(blocks: seq<Block>)
    requires WellFormed(blocks)
    ensures RecordsHaveAuthorAndText(Views(blocks))
  {
    var vs := Views(blocks);
    forall i | 0 <= i < |vs| && vs[i].record.Some?
      ensures HasAuthorAndText(vs[i].record.value)
    {
      assert vs[i].record == LastRecord(blocks[i].contents);
    }
  }

  /** The table after the content nodes wrote `rec` under `id` (or nothing). */
  function Stored<V>(m: JsMap<V>, id: string, rec: Option<V>): (r: JsMap<V>)
    requires m.Valid()
    ensures r.Valid()
    ensures r.Get(id) == if rec.Some? then rec else m.Get(id)
    ensures r.entries - {id} == m.entries - {id}
    ensures id in m.entries ==> r.keys == m.keys
  {
    match rec
    case None => m
    case Some(x) => m.Set(id, x)
  }

  /** One more content node: a record it has is set over whatever is stored. */
  lemma StoredSnoc<V>(m: JsMap<V>, id: string, xs: seq<Option<V>>, x: Option<V>)
    requires m.Valid()
    ensures Stored(m, id, LastSome(xs + [x]))
            == if x.Some? then Stored(m, id, LastSome(xs)).Set(id, x.value) else Stored(m, id, LastSome(xs))
  {
    LastSomeSnoc(xs, x);
    if x.Some? && LastSome(xs).Some? {
      SetTwice(m, id, LastSome(xs).value, x.value);
    }
  }

  /** One turn of the outer `forEach`: store the block's record under its id,
      then, if a record is stored under that id (from this block or an
      earlier one), set its avatar from this block's image. */
  function ProcessBlock(m: JsMap<AuthorComment>, v: BlockView): (r: JsMap<AuthorComment>)
    requires m.Valid()
    ensures r.Valid()
    ensures r.keys == Stored(m, v.id, v.record).keys
    ensures v.id in r.entries <==> v.id in m.entries || v.record.Some?
    ensures v.id in r.entries ==> r.entries[v.id].avatarSrc == v.avatar
    ensures r.entries - {v.id} == m.entries - {v.id}
  {
    var m1 := Stored(m, v.id, v.record);
    if v.id in m1.entries then m1.Set(v.id, m1.entries[v.id].(avatarSrc := v.avatar))
    else m1
  }

  /** The table after the given blocks, in document order. */
  function CommentTable(vs: seq<BlockView>): (r: JsMap<AuthorComment>)
    ensures r.Valid()
  {
    if vs == [] then Empty()
    else ProcessBlock(CommentTable(vs[..|vs| - 1]), vs[|vs| - 1])
  }

  /** `getProfileCommentsFromSteamId64`'s result for a fetched feed: null
      (None) when `total_count` is 0, without looking at the fragment,
      otherwise the table's values in key order. */
  function ProfileComments(doc: FeedDocument): (r: Option<seq<AuthorComment>>)
    requires doc.totalCount != 0 ==> WellFormed(doc.blocks)
    ensures r.None? <==> doc.totalCount == 0
  {
    if doc.totalCount == 0 then None
    else Some(CommentTable(Views(doc.blocks)).Values())
  }

  /** The content node at `j` sets its record, if it has one, over what the
      nodes before it left. */
  lemma StoreStep(m: JsMap<AuthorComment>, id: string, cs: seq<ContentNode>, j: nat)
    requires m.Valid() && j < |cs|
    ensures var records := NodeRecords(cs);
            Stored(m, id, LastSome(records[..j + 1]))
            == if records[j].Some? then Stored(m, id, LastSome(records[..j])).Set(id, records[j].value)
               else Stored(m, id, LastSome(records[..j]))
  {
    var records := NodeRecords(cs);
    TakeOneMore(records, j);
    StoredSnoc(m, id, records[..j], records[j]);
  }

  /** The inner `forEach` over one block's content nodes: every node with an
      author URL and a text sets the record stored under `commentId`. */
  method StoreContentRecords(commentMap: JsMap<AuthorComment>, commentId: string, commentThreads: seq<ContentNode>)
    returns (m: JsMap<AuthorComment>)
    requires commentMap.Valid()
    ensures m == Stored(commentMap, commentId, LastRecord(commentThreads))
  {
    ghost var records := NodeRecords(commentThreads);
    m := commentMap;
    var j := 0;
    while j < |commentThreads|
      invariant 0 <= j <= |commentThreads|
      invariant m.Valid()
      invariant m == Stored(commentMap, commentId, LastSome(records[..j]))
    {
      var rec := ContentRecord(commentThreads[j]);
      StoreStep(commentMap, commentId, commentThreads, j);
      if rec.Some? {
        m := m.Set(commentId, rec.value);
      }
      j := j + 1;
    }
    assert records[..j] == records;
  }

  /** One turn of the outer `forEach`: the content nodes, then the avatar
      put on whatever record is stored under the block's id. */
  method ProcessCommentBlock(commentMap: JsMap<AuthorComment>, ct: Block) returns (m: JsMap<AuthorComment>)
    requires commentMap.Valid() && WellFormedBlock(ct)
    ensures m == ProcessBlock(commentMap, View(ct))
  {
    var commentId := ct.id.value;
    m := StoreContentRecords(commentMap, commentId, ct.contents);
    var mediumImageSrc := MediumImageSrc(ct.avatar.value);
    var existingCommentObject := m.Get(commentId);
    if existingCommentObject.Some? {
      m := m.Set(commentId, existingCommentObject.value.(avatarSrc := mediumImageSrc));
    }
  }

  /** `commentMap.forEach(comment => profileComments.push(comment))`. */
  method CollectValues(commentMap: JsMap<AuthorComment>) returns (profileComments: seq<AuthorComment>)
    requires commentMap.Valid()
    ensures profileComments == commentMap.Values()
  {
    profileComments := [];
    var k := 0;
    while k < |commentMap.keys|
      invariant 0 <= k <= |commentMap.keys|
      invariant profileComments == commentMap.Values()[..k]
    {
      profileComments := profileComments + [commentMap.entries[commentMap.keys[k]]];
      k := k + 1;
    }
    assert commentMap.Values()[..k] == commentMap.Values();
  }

  /** The extractor as the source writes it: the loop over the blocks filling
      `commentMap`, then the values copied out in key order. */
  method GetProfileCommentsFromSteamId64(doc: FeedDocument) returns (r: Option<seq<AuthorComment>>)
    requires doc.totalCount != 0 ==> WellFormed(doc.blocks)
    ensures r == ProfileComments(doc)
  {
    if doc.totalCount == 0 {
      return None;
    }
    ghost var views := Views(doc.blocks);
    var commentMap := Empty<AuthorComment>();
    var i := 0;
    while i < |doc.blocks|
      invariant 0 <= i <= |doc.blocks|
      invariant commentMap == CommentTable(views[..i])
    {
      TakeOneMore(views, i);
      assert views[..i + 1][..i] == views[..i];
      commentMap := ProcessCommentBlock(commentMap, doc.blocks[i]);
      i := i + 1;
    }
    assert views[..i] == views;
    var profileComments := CollectValues(commentMap);
    return Some(profileComments);
  }

  // ------------------------------------------------ reference definitions

  /** The ids of the blocks that store a record, in document order. */
  function RecordIds(vs: seq<BlockView>): (r: seq<string>)
    ensures |r| <= |vs|
  {
    if vs == [] then []
    else
      var v := vs[|vs| - 1];
      RecordIds(vs[..|vs| - 1]) + (if v.record.Some? then [v.id] else [])
  }

  /** The last record any block with id `k` stores. */
  function RecordFor(vs: seq<BlockView>, k: string): (r: Option<AuthorComment>)
    requires RecordsHaveAuthorAndText(vs)
    ensures r.Some? ==> HasAuthorAndText(r.value)
  {
    if vs == [] then None
    else
      var prefix, v := vs[..|vs| - 1], vs[|vs| - 1];
      assert forall i :: 0 <= i < |prefix| ==> prefix[i] == vs[i];
      if v.id == k && v.record.Some? then v.record else RecordFor(prefix, k)
  }

  /** The avatar token of the last block with id `k`, or "" when there is none. */
  function AvatarFor(vs: seq<BlockView>, k: string): (r: string)
    ensures (forall i :: 0 <= i < |vs| ==> vs[i].id != k) ==> r == ""
    ensures r != "" ==> exists i :: 0 <= i < |vs| && vs[i].id == k && vs[i].avatar == r
  {
    if vs == [] then ""
    else
      var prefix, v := vs[..|vs| - 1], vs[|vs| - 1];
      assert forall i :: 0 <= i < |prefix| ==> prefix[i] == vs[i];
      if v.id == k then v.avatar else AvatarFor(prefix, k)
  }

  // ------------------------------------------------------------ properties

  /** Keys are added only when a record is stored, and the avatar update
      never adds one: the table's key order is the first-occurrence order of
      the ids that stored a record. */
  lemma {:induction false} CommentTableKeys(vs: seq<BlockView>)
    ensures CommentTable(vs).keys == FirstOccurrences(RecordIds(vs))
  {
    if vs != [] {
      var prefix, v := vs[..|vs| - 1], vs[|vs| - 1];
      CommentTableKeys(prefix);
      var ids := RecordIds(prefix);
      if v.record.Some? {
        assert RecordIds(vs) == ids + [v.id];
        assert (ids + [v.id])[..|ids|] == ids;
      } else {
        assert RecordIds(vs) == ids;
      }
    }
  }

  /** Each id's entry: present exactly when some block with that id stored a
      record, and then the last such record with the avatar token of the last
      block carrying that id. */
  lemma {:induction false} CommentTableEntry(vs: seq<BlockView>, k: string)
    requires RecordsHaveAuthorAndText(vs)
    ensures k in CommentTable(vs).entries <==> RecordFor(vs, k).Some?
    ensures k in CommentTable(vs).entries ==>
              CommentTable(vs).entries[k] == RecordFor(vs, k).value.(avatarSrc := AvatarFor(vs, k))
  {
    if vs != [] {
      var prefix := vs[..|vs| - 1];
      assert forall i :: 0 <= i < |prefix| ==> prefix[i] == vs[i];
      CommentTableEntry(prefix, k);
    }
  }

  lemma {:induction false} RecordIdsMembers(vs: seq<BlockView>)
    ensures forall v :: v in vs && v.record.Some? ==> v.id in RecordIds(vs)
  {
    if vs != [] {
      var prefix := vs[..|vs| - 1];
      assert forall v :: v in vs ==> v in prefix || v == vs[|vs| - 1];
      RecordIdsMembers(prefix);
    }
  }

  /** The whole result: one record per id that stored one, in first-storing
      order, no two from the same id, never more records than blocks, every
      record with an author URL and a text, and each equal to the last record
      for its id with the avatar of the last block for its id. */
  lemma ProfileCommentsResult(doc: FeedDocument)
    requires doc.totalCount != 0 && WellFormed(doc.blocks)
    ensures var out, vs := ProfileComments(doc).value, Views(doc.blocks);
            var ids := FirstOccurrences(RecordIds(vs));
            && |out| == |ids| <= |doc.blocks|
            && (forall i, j :: 0 <= i < j < |ids| ==> ids[i] != ids[j])
            && (forall v :: v in vs && v.record.Some? ==> v.id in ids)
            && (forall i :: 0 <= i < |out| ==>
                  RecordFor(vs, ids[i]).Some?
                  && out[i] == RecordFor(vs, ids[i]).value.(avatarSrc := AvatarFor(vs, ids[i]))
                  && HasAuthorAndText(out[i]))
  {
    var vs := Views(doc.blocks);
    var t := CommentTable(vs);
    ViewsHaveAuthorAndText(doc.blocks);
    CommentTableKeys(vs);
    RecordIdsMembers(vs);
    forall i | 0 <= i < |t.keys|
      ensures RecordFor(vs, t.keys[i]).Some?
      ensures t.entries[t.keys[i]] == RecordFor(vs, t.keys[i]).value.(avatarSrc := AvatarFor(vs, t.keys[i]))
    {
      CommentTableEntry(vs, t.keys[i]);
    }
  }

  /** A block whose id already has a record keeps the key order; the record
      under its id becomes the block's own record, if it has one, or stays,
      and in either case gets this block's avatar. Nothing else changes. */
  lemma ProcessBlockOnStoredId(m: JsMap<AuthorComment>, v: BlockView)
    requires m.Valid() && v.id in m.entries
    ensures var rec := if v.record.Some? then v.record.value else m.entries[v.id];
            && ProcessBlock(m, v).keys == m.keys
            && ProcessBlock(m, v).entries == m.entries[v.id := rec.(avatarSrc := v.avatar)]
  {
    var rec := if v.record.Some? then v.record.value else m.entries[v.id];
    assert m.entries[v.id := rec][v.id := rec.(avatarSrc := v.avatar)] == m.entries[v.id := rec.(avatarSrc := v.avatar)];
  }

  /** A block with a new id adds nothing when it has no record, and otherwise
      adds its record, with its avatar, at the end of the key order. */
  lemma ProcessBlockOnNewId(m: JsMap<AuthorComment>, v: BlockView)
    requires m.Valid() && v.id !in m.entries
    ensures v.record.None? ==> ProcessBlock(m, v) == m
    ensures v.record.Some? ==>
              && ProcessBlock(m, v).keys == m.keys + [v.id]
              && ProcessBlock(m, v).entries == m.entries[v.id := v.record.value.(avatarSrc := v.avatar)]
  {
    if v.record.Some? {
      var rec := v.record.value;
      assert m.entries[v.id := rec][v.id := rec.(avatarSrc := v.avatar)] == m.entries[v.id := rec.(avatarSrc := v.avatar)];
    }
  }

  /** The table of two blocks, the first of which stores a record. */
  lemma TwoBlocks(v1: BlockView, v2: BlockView)
    requires v1.record.Some? && v2.id == v1.id
    ensures CommentTable([v1, v2]) == ProcessBlock(CommentTable([v1]), v2)
    ensures CommentTable([v1]).keys == [v1.id]
    ensures CommentTable([v1]).entries == map[v1.id := v1.record.value.(avatarSrc := v1.avatar)]
  {
    assert [v1][..0] == [];
    assert [v1, v2][..1] == [v1];
    ProcessBlockOnNewId(Empty(), v1);
  }

  /** Two blocks with the same id that both store a record give one record:
      the second block's, with the second block's avatar. */
  lemma SameIdOverwrites(v1: BlockView, v2: BlockView)
    requires v1.id == v2.id && v1.record.Some? && v2.record.Some?
    ensures CommentTable([v1, v2]).Values() == [v2.record.value.(avatarSrc := v2.avatar)]
  {
    TwoBlocks(v1, v2);
    ProcessBlockOnStoredId(CommentTable([v1]), v2);
  }

  /** A later block with the same id but no record keeps the stored record and
      puts its own avatar on it. */
  lemma LaterBlockSetsAvatar(v1: BlockView, v2: BlockView)
    requires v1.id == v2.id && v1.record.Some? && v2.record.None?
    ensures CommentTable([v1, v2]).Values() == [v1.record.value.(avatarSrc := v2.avatar)]
  {
    TwoBlocks(v1, v2);
    ProcessBlockOnStoredId(CommentTable([v1]), v2);
  }

  // --------------------------------------------------------------- handler

  /** What the extractor can crash on, for the id the handler resolves. */
  predicate FeedIsReadable(path: string, isNumeric: string -> bool, lookup: string -> VanityResponse, feed: string -> FeedDocument) {
    var id := GetValidSteamId64(PathSteamId(path), isNumeric, lookup);
    IsTruthy(id) && feed(id.value).totalCount != 0 ==> WellFormed(feed(id.value).blocks)
  }

  /** `handler`: 404 without a body when no truthy id resolves, otherwise 200
      with the extractor's result (None standing for `null`). The feed for an
      id is a parameter. */
  function Handler(path: string, isNumeric: string -> bool, lookup: string -> VanityResponse, feed: string -> FeedDocument): (r: Response<Option<seq<AuthorComment>>>)
    requires FeedIsReadable(path, isNumeric, lookup, feed)
    ensures var id := GetValidSteamId64(PathSteamId(path), isNumeric, lookup);
            && (r.statusCode == 404 <==> !IsTruthy(id))
            && (r.statusCode == 404 ==> r.body.None?)
            && (r.statusCode != 404 ==> r.statusCode == 200 && r.body == Some(ProfileComments(feed(id.value))))
  {
    var steamId64 := GetValidSteamId64(PathSteamId(path), isNumeric, lookup);
    if !IsTruthy(steamId64) then Response(404, None)
    else Response(200, Some(ProfileComments(feed(steamId64.value))))
  }

  /** A numeric identifier after "/api/comments/" is used as it is, whatever
      the lookup would answer. */
  lemma HandlerNumericPassThrough(id: string, isNumeric: string -> bool, lookup: string -> VanityResponse, feed: string -> FeedDocument)
    requires id != "" && isNumeric(id) && !Contains(id, CommentsPath)
    requires feed(id).totalCount != 0 ==> WellFormed(feed(id).blocks)
    ensures FeedIsReadable(CommentsPath + id, isNumeric, lookup, feed)
    ensures Handler(CommentsPath + id, isNumeric, lookup, feed) == Response(200, Some(ProfileComments(feed(id))))
  {
    PathSteamIdOfApiPath(id);
  }

  /** A path without "/api/comments/" gives the empty identifier; when the
      number test accepts it (JavaScript's `+""` is 0), the answer is 404. */
  lemma HandlerWithoutPrefix(path: string, isNumeric: string -> bool, lookup: string -> VanityResponse, feed: string -> FeedDocument)
    requires !Contains(path, CommentsPath) && isNumeric("")
    ensures FeedIsReadable(path, isNumeric, lookup, feed)
    ensures Handler(path, isNumeric, lookup, feed) == Response(404, None)
  {
  }
}
