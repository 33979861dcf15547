/** The records of the structured post format (NPF) that the renderer reads.
    Absent keys are `None`; Python's falsy empty strings stay empty strings,
    so each consumer can apply the source's own truthiness tests. */
module Npf {
  import opened Util

  /** The `type` of a formatting span; `UnknownSpan` is any other type string. */
  datatype SpanKind =
    | Bold
    | Italic
    | Small
    | Strikethrough
    | Link(url: Option<string>)
    | UnknownSpan

  /** One entry of a text block's `formatting` list: `[start, end)` in characters. */
  datatype FormatSpan = FormatSpan(start: nat, end: nat, kind: SpanKind)

  /** A block's `subtype`; `Plain` stands for an absent or unrecognised subtype. */
  datatype Subtype =
    | Plain
    | Heading1
    | Heading2
    | Quote
    | Indented
    | Chat
    | Quirky
    | OrderedListItem
    | UnorderedListItem

  /** One answer of a poll block: `answer_text` and `client_id`. */
  datatype PollAnswer = PollAnswer(answerText: Option<string>, clientId: Option<string>)

  /** One content block. `OtherBlock` is any block type the renderer does
      not draw (audio, video, link, ...); its subtype still matters for lists. */
  datatype Block =
    | TextBlock(subtype: Subtype, text: string, formatting: seq<FormatSpan>)
    | ImageBlock(subtype: Subtype, media: seq<string>, altText: Option<string>)
    | PollBlock(subtype: Subtype, question: Option<string>, clientId: Option<string>, answers: seq<PollAnswer>)
    | OtherBlock(subtype: Subtype)

  /** One row of a `rows` layout: the content indices it shows, in order. */
  datatype Row = Row(blocks: seq<nat>)

  /** One layout entry. For an `ask` entry, `askerBlog` is the blog name of
      a `blog` attribution, absent for any other attribution. */
  datatype LayoutEntry =
    | RowsLayout(display: seq<Row>, truncateAfter: Option<int>)
    | AskLayout(blocks: seq<nat>, askerBlog: Option<string>)
    | OtherLayout

  /** One link of a reblog chain (a trail entry, or the post itself).
      `blogName` is `blog_name`, `blogObjectName` is `blog.name`,
      `refPostId` is `str` of `post.id` when present, and `date` is the
      display text of the link's date. */
  datatype ChainLink = ChainLink(
    blogName: Option<string>,
    blogObjectName: Option<string>,
    content: seq<Block>,
    layout: seq<LayoutEntry>,
    refPostId: Option<string>,
    date: string)

  /** A post as the archiver receives it. `id` is `str(post['id'])`,
      `isAnswerType` is `type == 'answer'`, `rootDate` is the display text
      of the root timestamp, and `subject` holds the post's own
      `blog_name`, `content`, `layout` and `date`. */
  datatype Post = Post(
    id: string,
    isAnswerType: bool,
    question: Option<string>,
    askingName: Option<string>,
    rootDate: string,
    trail: seq<ChainLink>,
    subject: ChainLink)
}
