/** The comment-feed fragment as the HTML parser hands it over: a sequence of
    comment blocks (`.commentthread_comment`), each with its content nodes
    (`.commentthread_comment_content`) and its avatar image. Selector matching
    and `innerHTML` serialisation happen before this point. */
module Markup {
  import opened Wrappers
  import opened JsStrings

  /** An element seen both ways the parsers expose it: its serialised
      `innerHTML` (JSDOM) and its `text()` content (cheerio). */
  datatype TextElement = TextElement(innerHtml: string, textContent: string)

  /** The author anchor; `href` is None when the element has no href attribute. */
  datatype AuthorLink = AuthorLink(href: Option<string>)

  /** One `.commentthread_comment_content` node: the author link, the
      `.commentthread_comment_text` element and the `bdi` holding the name. */
  datatype ContentNode = ContentNode(authorLink: Option<AuthorLink>, text: Option<TextElement>, bdi: Option<TextElement>)

  /** The avatar `img` of a block, with its `srcset` and `src` attributes. */
  datatype AvatarImg = AvatarImg(srcset: Option<string>, src: Option<string>)

  /** One `.commentthread_comment` block with its `id` attribute. */
  datatype Block = Block(id: Option<string>, contents: seq<ContentNode>, avatar: Option<AvatarImg>)

  /** JSDOM's `anchor?.href`: undefined without an anchor, "" for an anchor
      without an href attribute. */
  function JsdomHref(c: ContentNode): (r: Option<string>)
    ensures r.None? <==> c.authorLink.None?
  {
    match c.authorLink
    case None => None
    case Some(link) => Some(link.href.GetOr(""))
  }

  /** `c.querySelector(".commentthread_comment_text")?.innerHTML.trim().replace(/<.*?>/g, "")`. */
  function StrippedText(c: ContentNode): (r: Option<string>)
    ensures r.None? <==> c.text.None?
    ensures r.Some? ==> TagFree(r.value) && |r.value| <= |c.text.value.innerHtml|
  {
    match c.text
    case None => None
    case Some(t) =>
      StripTagsIsTagFree(Trim(t.innerHtml));
      Some(StripTags(Trim(t.innerHtml)))
  }

  /** Every content node of the fragment in document order, as
      `document.querySelectorAll(".commentthread_comment_content")` lists them. */
  function ContentNodes(blocks: seq<Block>): (r: seq<ContentNode>)
    ensures forall b, c :: b in blocks && c in b.contents ==> c in r
  {
    if blocks == [] then []
    else ContentNodes(blocks[..|blocks| - 1]) + blocks[|blocks| - 1].contents
  }
}
