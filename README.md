# Tumblr post archiver: the structured-content renderer

This project models the core of `post_archiver.py`, a script that archives
Tumblr posts as static HTML pages. The core turns a post in Tumblr's
structured post format (NPF) into the HTML body of the page. It has three layers:

- **Block renderer** (`_process_single_block`). It renders one content block:
  - A text run goes through the span formatter. Formatting spans become
    buckets of tags keyed by character offset, and the escaped text is cut at
    those offsets.
  - The escaped arrows `&lt;-` and `-&gt;` are replaced by the glyphs
    U+1F850 and U+1F852.
  - The subtype picks the wrapping tag.
  - Ordered and unordered list items share one `<ol>`/`<ul>` across
    consecutive blocks.
  - An image block contributes its media URL.
  - A poll block shows its answers with percentages taken from a map of
    vote counts.
- **Layout composer** (`parse_api_content`). It lays out a subset of the
  content blocks by the post's `rows` layout:
  - A row with several shown blocks is wrapped in `image-row-N`.
  - Rows whose least shown index is past `truncate_after` are folded behind
    a "Keep Reading" disclosure.
  - A list still open at the end is closed.
  - Image URLs are de-duplicated, keeping first occurrences.
- **Chain assembly** (the loop of `save_post_to_file`). It walks the reblog
  trail followed by the post itself:
  - The first link becomes the original post, or an ask and its answer.
  - The other links become reblog blocks.
  - Links without an author, and reblogs without content, are skipped.
  - A blank final reblog adds nothing.

Modules follow these layers:

- `Util`: Option, de-duplication, tabulation.
- `HtmlText`: `html.escape`, the arrow substitution, `strip`, number text.
- `Npf`: the records.
- `Inline`: the span formatter.
- `PollRender`: poll blocks.
- `BlockRender`: one block.
- `Layout`: the composer.
- `Format`: the page fragments.
- `Chain`: the post body.

The source's loops are methods. Each is proved equal to a specification
function, and the lemmas are stated about those functions. The open-list
context that the source keeps in a one-element list is threaded explicitly
as a parameter and a result (`Option<ListKind>`). A content index past the
content raises `IndexError` in the source; the model returns `None` there.

## Model

| member | source | states |
|---|---|---|
| Inline.BuildMarkers | post_archiver.py:100-108 | the markers loop builds exactly the offset-to-bucket map: its keys are the starts and ends of the spans of a known type, and each bucket holds the closing tags in reverse registration order followed by the opening tags in registration order |
| Inline.BucketSnoc | post_archiver.py:107-108 | registering one more span puts its closing tag at the front of the bucket at its end and its opening tag at the back of the bucket at its start |
| Inline.ClosesBeforeOpens | post_archiver.py:107-108 | within one bucket every closing tag comes before every opening tag |
| Inline.UnknownSpansAddNoTags | post_archiver.py:104-108 | spans of an unknown type add no tag to any bucket |
| Inline.UnknownSpansAddNoKeys | post_archiver.py:106-108 | spans of an unknown type add no offset to the markers |
| Inline.RenderPieces | post_archiver.py:110-115 | the text-parts loop emits, offset by offset in ascending order, the text since the previous offset and then that offset's tags, and finally the rest of the text |
| Inline.InlineTextIsEscapedText | post_archiver.py:110-115 | whatever the span offsets, the text pieces with the tags removed are the raw text, every character once and in order, and their markup is the escaped raw text |
| Inline.InlineTagsAtOffsets | post_archiver.py:111-113 | the tags of each offset's bucket stand together, right after the text that precedes that offset |
| Inline.RenderRun | post_archiver.py:99-119 | a text run renders as its pieces joined with the arrows substituted, and no `&lt;-` or `-&gt;` is left in it |
| HtmlText.Escape | post_archiver.py:105 | escaping leaves no `<` or `>`, and with `quote` no quotation mark either |
| HtmlText.UnescapeEscape | post_archiver.py:112 | escaping loses nothing: decoding the five entities gives the text back |
| HtmlText.EscapeAppend | post_archiver.py:112-115 | escaping text piece by piece is escaping the whole text |
| HtmlText.NoArrowsAfterSubst | post_archiver.py:119 | after the arrow substitution no `&lt;-` and no `-&gt;` remain |
| HtmlText.ArrowSubstWithoutArrows | post_archiver.py:119 | text without escaped arrows is left unchanged by the substitution |
| HtmlText.ReplaceRemovesAll | post_archiver.py:119 | `str.replace` by a character foreign to the pattern leaves no occurrence of the pattern |
| HtmlText.StripEmptyIff | post_archiver.py:329 | markup strips to nothing iff it is all whitespace |
| HtmlText.StripIdempotent | post_archiver.py:66-81 | stripping stripped markup changes nothing |
| HtmlText.ThousandsAreDigits | post_archiver.py:201 | the grouped vote total is its decimal digits with commas inserted |
| HtmlText.DecimalRoundTrip | post_archiver.py:226 | the decimal text of a number (the column count of a row) reads back as that number |
| Format.OpHeaderNamesUser | post_archiver.py:62-64 | the original-post header shows the poster's name, whatever characters it holds |
| Format.ReblogBlockNamesUser | post_archiver.py:70-72 | a reblog block shows its reblogger's name |
| Format.AskBlockNamesAsker | post_archiver.py:74-76 | an ask block shows its asker's name |
| Format.AnswerHeaderIff | post_archiver.py:78-81 | the "answered" header is present iff it is asked for, and then names the answerer |
| Format.ContainersStrip | post_archiver.py:66-81 | the content containers strip their markup, so stripped and unstripped markup give the same fragment |
| PollRender.PollVotes | post_archiver.py:148-152 | the votes map is empty when the blog name, the post id, the poll's client id or the API key is missing |
| PollRender.TotalVotes | post_archiver.py:164 | the summing loop yields the sum of all the counts in the votes map |
| PollRender.VotesFor | post_archiver.py:183-184 | an answer whose client id is absent from the votes map has 0 votes |
| PollRender.VotesAtMostTotal | post_archiver.py:184-189 | an answer never has more votes than the total |
| PollRender.Percentage | post_archiver.py:187-190 | the percentage is 0 when the total is 0, and at most 100 for a share of the total |
| PollRender.PercentageIsNearest | post_archiver.py:187-190 | the percentage is an integer nearest to 100 * votes / total |
| PollRender.PercentageTieIsEven | post_archiver.py:190 | a tie is rounded to the even percentage |
| PollRender.PercentagesBounded | post_archiver.py:184-190 | every answer's percentage lies between 0 and 100, and is 0 when no vote was counted |
| PollRender.DisplayTextHasNoArrows | post_archiver.py:176-192 | no escaped arrow is left in the poll question or in an answer's text |
| PollRender.AnswerLinesInOrder | post_archiver.py:181-198 | the `i`-th list item is the item of the `i`-th answer, with that answer's votes |
| PollRender.RenderAnswers | post_archiver.py:181-198 | the answers loop emits one list item per answer, in order |
| PollRender.OptionsListIffAnswers | post_archiver.py:179-199 | the options list appears iff the poll has answers, and then holds their items in order |
| PollRender.TotalLineIffVotes | post_archiver.py:200-201 | the "votes total" line appears iff the total is greater than 0, and then shows that total |
| PollRender.RenderPoll | post_archiver.py:142-202 | a poll renders as its head, its options, its total line and its close, with the total summed from the votes map |
| BlockRender.RenderBlock | post_archiver.py:86-205 | one block renders to its specification: markup, media and the list context it leaves |
| BlockRender.ListContextAfterBlock | post_archiver.py:93-132 | after a block that is no list item no list is open, and after a text list item its own kind of list is open |
| BlockRender.NonListItemClosesFirst | post_archiver.py:93-96 | a block that is no list item starts by closing the open list |
| BlockRender.ListItemOpensItsList | post_archiver.py:126-132 | a list item of the open list's kind adds only its item; otherwise it closes any open list and opens its own before its item |
| BlockRender.ClosingTagNames | post_archiver.py:121-125 | a wrapping tag with attributes is closed by its element name alone |
| BlockRender.MediaIsFirstImageUrl | post_archiver.py:136-140 | a block contributes media iff it is an image block with media, and then exactly its first URL |
| BlockRender.TextRunHasNoEscapedArrows | post_archiver.py:117-119 | a text block's text keeps no escaped arrow |
| Layout.Relevant | post_archiver.py:221 | a row shows exactly those of its blocks that are among the requested indices |
| Layout.RelevantAppend | post_archiver.py:221 | filtering a row split in two is filtering each part in turn, so the shown blocks keep the row's order and its repeats |
| Layout.RelevantSingle | post_archiver.py:221 | a single block is shown iff it is requested |
| Layout.FirstRows | post_archiver.py:215 | the layout used is the first `rows` entry of the layout (no earlier entry is of that type), and there is none only when no entry is of that type |
| Layout.RenderBlocks | post_archiver.py:237-240 | the loop over indices renders the blocks in the order given, threading the list context |
| Layout.RenderRow | post_archiver.py:224-233 | a row is rendered by its specification, wrapped in `image-row-N` when it shows several blocks |
| Layout.RowWrapper | post_archiver.py:224-233 | a row showing several blocks starts with the `image-row-N` division, N being the number of blocks it shows, and ends by closing it; a row showing one block is that block's markup alone |
| Layout.RenderRowStep | post_archiver.py:220-236 | one row goes to the folded or the visible part, or is skipped when it shows no block |
| Layout.RenderRows | post_archiver.py:219-236 | the rows loop renders the rows in layout order |
| Layout.ParseContent | post_archiver.py:207-251 | the composer renders to its specification: the list closed, the fold wrapped and the media de-duplicated |
| Layout.ParseFailsIffIndexPastContent | post_archiver.py:209-240 | rendering fails iff a shown index lies past the content, and empty content never fails |
| Layout.MediaAreShownImageUrls | post_archiver.py:228-251 | the media list is the first URL of every rendered image block, in rendering order, de-duplicated |
| Util.Dedup | post_archiver.py:251 | the de-duplicated list has no repeated element and holds exactly the elements of the input |
| Util.DedupKeepsFirstOccurrenceOrder | post_archiver.py:251 | the de-duplicated list keeps the order of first occurrences |
| Layout.NoCutNoFold | post_archiver.py:216-217 | without `truncate_after` no row is folded |
| Layout.NoFoldWithoutCut | post_archiver.py:215-240 | without a `rows` entry, or without `truncate_after`, nothing is folded |
| Layout.RowPlacement | post_archiver.py:235-236 | a row whose least shown index is beyond `truncate_after` adds its markup to the folded part and leaves the visible part unchanged; any other row adds its markup to the visible part and leaves the folded part unchanged; a row showing no requested block adds nothing |
| Layout.FoldNeedsFoldedRow | post_archiver.py:235-236 | markup is folded only when some shown row has its least shown index beyond `truncate_after` |
| Layout.KeepReadingIffFolded | post_archiver.py:247-249 | the "Keep Reading" section is present iff something was folded, and then it comes once, after the visible part, holding all the folded markup |
| Layout.ListClosedAtEnd | post_archiver.py:242-249 | a list still open at the end is closed in the folded part when that part is non-empty, otherwise in the visible part, after the trailing newlines are dropped |
| Chain.FullChain | post_archiver.py:282 | the chain has one link per trail entry plus the post itself |
| Chain.ChainEndsWithPost | post_archiver.py:282 | the chain is the trail followed by the post |
| Chain.FirstAsk | post_archiver.py:305 | the ask entry found is the first `ask` entry of the layout (no earlier entry is of that type), and none is found iff the layout has none |
| Chain.AnswerDetectionReadsRoot | post_archiver.py:275-280 | a post is an answer iff it is of type answer, has a question, or has an `ask` entry in the root link's layout |
| Chain.AnswerIndicesExact | post_archiver.py:311 | the answer indices are exactly the content indices that are not in the ask |
| Chain.AnswerIndicesIncreasing | post_archiver.py:311 | the answer indices are in increasing order |
| Chain.SkippedAddsNothing | post_archiver.py:289 | a link without an author, or a reblog link without content, adds nothing |
| Chain.LinkPostIdCases | post_archiver.py:292-297 | a link is rendered with the post's id if it is the last link, with its own id if it has a non-empty one, with the text "None" if it has none, and with the post's id only for an empty id |
| Chain.MissingIdExample | post_archiver.py:293-297 | a trail link without an id is rendered with post id "None", not with the post's id |
| Chain.RenderRoot | post_archiver.py:299-324 | the root link renders to its specification |
| Chain.RootOfPost | post_archiver.py:322-324 | the root link of a post that is no answer is the header followed by the post's content |
| Chain.RootOfAnswer | post_archiver.py:304-321 | the root link of an answer is the header, an ask block and an answer block whose header is present iff the post has a trail |
| Chain.LegacyQuestionHasNoEscapedArrows | post_archiver.py:318-320 | the legacy question is quoted and keeps no escaped arrow |
| Chain.RenderReblog | post_archiver.py:325-336 | a reblog link renders to its specification |
| Chain.ReblogNamesReblogger | post_archiver.py:328-336 | a rendered reblog names its reblogger, and a final reblog whose markup strips to nothing adds nothing |
| Chain.RenderLink | post_archiver.py:285-336 | one link renders as skipped, as the root or as a reblog |
| Chain.AssemblePost | post_archiver.py:284-336 | the loop over the chain joins the links' fragments into the post body |
| Chain.ChainInOrder | post_archiver.py:284-336 | fragments are joined in chain order: the body is the first links' body followed by the remaining links' fragments |
| Chain.ChainFailsIffLinkFails | post_archiver.py:284-336 | the body fails iff one of its links fails to render |

## Left out

- The poll-results request (post_archiver.py:152-171) is not modelled: the
  endpoint is a function parameter (`PollService.results`) that gives the
  votes map, the empty map standing for every failure. The API key
  (`TUMBLR_API_KEY`) is a field of the same parameter.
- `fetch_and_process`, the `__main__` block and the configuration read
  from the environment (post_archiver.py:13-19, 351-416) are network,
  batch and configuration plumbing.
- Reading the archive directory and writing the page file
  (post_archiver.py:255-264, 347-349) are filesystem work.
- Date parsing and formatting (post_archiver.py:50-60, 300-301, 331-334)
  are library calls. Dates reach the model as display strings
  (`Post.rootDate`, `ChainLink.date`).
- The metadata footer, the `HTML_TEMPLATE` page shell and the final
  `strip` of the body (post_archiver.py:26-46, 338-345) are presentation
  only. The debug `print` calls are left out too.
- PollRender.Percentage: computed on exact rationals, rounding half to
  even. The source rounds the binary float `votes / total * 100` with
  `:.0f`, which can differ from this at a tie.
- Dispatch on the `type` and `subtype` strings is modelled as closed
  datatypes. An unknown subtype is `Plain` and an unknown block type is
  `OtherBlock`.
- Python's tolerance of odd data is not modelled:
  - Negative indices and offsets wrap around in Python; the model's indices
    and offsets are natural numbers.
  - A missing required key (`fmt['start']`, `block['media'][0]['url']`)
    raises `KeyError`.
  - An explicit `None` where a string is expected makes `html.escape` raise.
