/** `_process_single_block` (post_archiver.py:86-205): one content block
    to markup, the image URL it contributes, and the list context it
    leaves for the next block. */
module BlockRender {
  import opened Util
  import opened HtmlText
  import opened Npf
  import opened Inline
  import opened PollRender

  // ---------------------------------------------------------------------
  // List context

  /** The list left open by the previous blocks: `ul` or `ol`. */
  datatype ListKind = UnorderedList | OrderedList

  function ListTag(k: ListKind): string {
    match k
    case UnorderedList => "ul"
    case OrderedList => "ol"
  }

  /** The list a subtype belongs to; `None` for a subtype that is no list item. */
  function ListKindOf(s: Subtype): Option<ListKind> {
    match s
    case UnorderedListItem => Some(UnorderedList)
    case OrderedListItem => Some(OrderedList)
    case _ => None
  }

  predicate IsListItem(s: Subtype) {
    ListKindOf(s).Some?
  }

  function OpenList(k: ListKind): string {
    "<" + ListTag(k) + ">\n"
  }

  function CloseList(k: ListKind): string {
    "</" + ListTag(k) + ">\n"
  }

  /** The close tag of the open list, or nothing. */
  function CloseAny(list: Option<ListKind>): string {
    match list
    case Some(k) => CloseList(k)
    case None => ""
  }

  /** A block that is no list item first closes the open list
      (post_archiver.py:93-96). */
  function Lead(s: Subtype, list: Option<ListKind>): string {
    if IsListItem(s) then "" else CloseAny(list)
  }

  /** The list context once `Lead` is emitted. */
  function AfterLead(s: Subtype, list: Option<ListKind>): Option<ListKind> {
    if IsListItem(s) then list else None
  }

  // ---------------------------------------------------------------------
  // Text markup

  /** The `tag_map` entry of a subtype, `p` for the others
      (post_archiver.py:121-125, 134). */
  function TagName(s: Subtype): string {
    match s
    case Heading1 => "h1"
    case Heading2 => "h2"
    case Quote => "blockquote"
    case Indented => "blockquote"
    case Chat => "p class=\"chat-style\""
    case Quirky => "p class=\"quirky-style\""
    case _ => "p"
  }

  /** `tag.split()[0]`: the text up to the first space. */
  function FirstWord(t: string): (w: string)
    ensures |w| <= |t| && w == t[..|w|] && ' ' !in w
    decreases |t|
  {
    if t == [] || t[0] == ' ' then "" else [t[0]] + FirstWord(t[1..])
  }

  /** A paragraph-like block: its text between the tag and the tag's first
      word as closing tag (post_archiver.py:125). */
  function TextMarkup(s: Subtype, text: string): string {
    "<" + TagName(s) + ">" + text + "</" + FirstWord(TagName(s)) + ">\n"
  }

  /** The first word ends at the first space, or at the end. */
  lemma {:induction false} FirstWordUpTo(t: string, i: nat)
    requires i <= |t| && ' ' !in t[..i] && (i == |t| || t[i] == ' ')
    ensures FirstWord(t) == t[..i]
    decreases i
  {
    if i > 0 {
      assert t[0] == t[..i][0];
      assert t[1..][..i - 1] == t[1..i];
      assert t[..i] == [t[0]] + t[1..][..i - 1];
      FirstWordUpTo(t[1..], i - 1);
      assert t[..i] == [t[0]] + t[1..i];
    }
  }

  /** The closing tags are the element names alone. */
  lemma ClosingTagNames(s: Subtype)
    ensures FirstWord(TagName(s)) == (match s
                                      case Heading1 => "h1"
                                      case Heading2 => "h2"
                                      case Quote => "blockquote"
                                      case Indented => "blockquote"
                                      case _ => "p")
  {
    var t := TagName(s);
    if s.Chat? || s.Quirky? {
      FirstWordUpTo(t, 1);
    } else {
      FirstWordUpTo(t, |t|);
      assert t[..|t|] == t;
    }
  }

  /** A list item, preceded by the list's opening tag (and the close of a
      list of the other kind) when its list is not already open
      (post_archiver.py:126-132). */
  function ListItemMarkup(k: ListKind, list: Option<ListKind>, text: string): string {
    ListSwitch(k, list) + ItemMarkup(text)
  }

  /** The tags that make `k` the open list. */
  function ListSwitch(k: ListKind, list: Option<ListKind>): string {
    if list == Some(k) then "" else CloseAny(list) + OpenList(k)
  }

  function ItemMarkup(text: string): string {
    "<li>" + text + "</li>\n"
  }

  // ---------------------------------------------------------------------
  // Blocks

  /** What the caller passes on for poll blocks: the blog name, the post id
      and the poll-results endpoint. */
  datatype Scope = Scope(blogName: string, postId: string, svc: PollService)

  /** The result of one block: its markup, the media URLs it adds and the
      list context it leaves. */
  datatype BlockOut = BlockOut(html: string, media: seq<string>, list: Option<ListKind>)

  /** `<img src="url" alt="...">`, the URL as given and the alt text
      escaped, `Tumblr Image` when absent (post_archiver.py:136-140). */
  function ImageMarkup(url: string, alt: Option<string>): string {
    "<img src=\"" + url + "\" alt=\"" + Escape(alt.GetOr("Tumblr Image"), false) + "\">\n"
  }

  /** The votes of a poll block. */
  function BlockVotes(b: Block, sc: Scope): map<string, nat>
    requires b.PollBlock?
  {
    PollVotes(sc.svc, sc.blogName, sc.postId, b.clientId)
  }

  /** The block's rendering with the list context `list` left by the
      previous blocks. */
  ghost function BlockSpec(b: Block, list: Option<ListKind>, sc: Scope): BlockOut {
    var lead := Lead(b.subtype, list);
    var ctx := AfterLead(b.subtype, list);
    match b
    case TextBlock(s, raw, fs) =>
      var text := InlineHtml(raw, fs);
      (match ListKindOf(s)
       case Some(k) => BlockOut(ListItemMarkup(k, ctx, text), [], Some(k))
       case None => BlockOut(lead + TextMarkup(s, text), [], ctx))
    case ImageBlock(_, media, alt) =>
      if media == [] then BlockOut(lead, [], ctx)
      else BlockOut(lead + ImageMarkup(media[0], alt), [media[0]], ctx)
    case PollBlock(_, q, _, answers) =>
      var votes := BlockVotes(b, sc);
      BlockOut(lead + LinesHtml(PollLines(q, answers, votes, MapSum(votes))), [], ctx)
    case OtherBlock(_) => BlockOut(lead, [], ctx)
  }

  /** `_process_single_block`. */
  method RenderBlock(b: Block, list: Option<ListKind>, sc: Scope) returns (out: BlockOut)
    ensures out == BlockSpec(b, list, sc)
  {
    var lead := Lead(b.subtype, list);
    var ctx := AfterLead(b.subtype, list);
    match b
    case TextBlock(s, raw, fs) =>
      var text := RenderRun(raw, fs);
      match ListKindOf(s) {
        case Some(k) =>
          out := BlockOut(ListItemMarkup(k, ctx, text), [], Some(k));
        case None =>
          out := BlockOut(lead + TextMarkup(s, text), [], ctx);
      }
    case ImageBlock(_, media, alt) =>
      if media == [] {
        out := BlockOut(lead, [], ctx);
      } else {
        out := BlockOut(lead + ImageMarkup(media[0], alt), [media[0]], ctx);
      }
    case PollBlock(_, q, _, answers) =>
      var poll := RenderPoll(q, answers, BlockVotes(b, sc));
      out := BlockOut(lead + poll, [], ctx);
    case OtherBlock(_) =>
      out := BlockOut(lead, [], ctx);
  }

  // ---------------------------------------------------------------------
  // Properties

  /** The list context a block leaves: the list of a text list item, none
      after a block that is no list item, and the previous one after a
      block of another type with a list subtype. */
  lemma ListContextAfterBlock(b: Block, list: Option<ListKind>, sc: Scope)
    ensures BlockSpec(b, list, sc).list ==
              if !IsListItem(b.subtype) then None
              else if b.TextBlock? then ListKindOf(b.subtype)
              else list
  {
  }

  /** A block that is no list item closes the open list before anything
      else. */
  lemma NonListItemClosesFirst(b: Block, k: ListKind, sc: Scope)
    requires !IsListItem(b.subtype)
    ensures |CloseList(k)| <= |BlockSpec(b, Some(k), sc).html|
    ensures BlockSpec(b, Some(k), sc).html[..|CloseList(k)|] == CloseList(k)
  {
  }

  /** A list item of the open list adds only its item; one of another list
      (or none) first closes the open list and opens its own. */
  lemma ListItemOpensItsList(s: Subtype, raw: string, fs: seq<FormatSpan>, list: Option<ListKind>, sc: Scope)
    requires IsListItem(s)
    ensures var out := BlockSpec(TextBlock(s, raw, fs), list, sc);
            var item := ItemMarkup(InlineHtml(raw, fs));
            if list == ListKindOf(s) then out.html == item
            else out.html == CloseAny(list) + OpenList(ListKindOf(s).value) + item
  {
    var item := ItemMarkup(InlineHtml(raw, fs));
    var k := ListKindOf(s).value;
    assert BlockSpec(TextBlock(s, raw, fs), list, sc).html == ListSwitch(k, list) + item;
    if list == Some(k) {
      assert "" + item == item;
    }
  }

  /** A block adds a media URL iff it is an image block with media, and
      then exactly its first media URL. */
  lemma MediaIsFirstImageUrl(b: Block, list: Option<ListKind>, sc: Scope)
    ensures BlockSpec(b, list, sc).media == if b.ImageBlock? && b.media != [] then [b.media[0]] else []
  {
  }

  /** Text blocks carry no escaped arrow in their text: every `&lt;-` and
      `-&gt;` of the run has become an arrow (post_archiver.py:117-119). */
  lemma TextRunHasNoEscapedArrows(raw: string, fs: seq<FormatSpan>)
    ensures !Occurs(InlineHtml(raw, fs), "&lt;-") && !Occurs(InlineHtml(raw, fs), "-&gt;")
  {
    NoArrowsAfterSubst(PiecesHtml(InlinePieces(raw, fs)));
  }
}
