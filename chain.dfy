/** The reblog chain of a post rendered to the page body (the loop of
    `save_post_to_file`, post_archiver.py:272-336): the trail's links
    followed by the post itself, the first as the original post (or as
    an ask and its answer), the others as reblogs. */
module Chain {
  import opened Util
  import opened HtmlText
  import opened Npf
  import opened PollRender
  import opened BlockRender
  import opened Layout
  import opened Format

  // ---------------------------------------------------------------------
  // The chain and its links

  /** The trail followed by the post itself (post_archiver.py:282). */
  function FullChain(p: Post): (c: seq<ChainLink>)
    ensures |c| == |p.trail| + 1
  {
    if p.trail != [] then p.trail + [p.subject] else [p.subject]
  }

  /** `blog_name`, or else `blog.name`; the empty string when neither is
      set (post_archiver.py:286). */
  function Author(l: ChainLink): string {
    if l.blogName.Some? && l.blogName.value != "" then l.blogName.value else l.blogObjectName.GetOr("")
  }

  predicate HasAsk(layout: seq<LayoutEntry>) {
    exists k :: 0 <= k < |layout| && layout[k].AskLayout?
  }

  /** The first `ask` entry of a layout (post_archiver.py:305). */
  function FirstAsk(layout: seq<LayoutEntry>): (r: Option<LayoutEntry>)
    ensures r.Some? ==> r.value.AskLayout? && r.value in layout
    ensures r.Some? ==> exists k :: 0 <= k < |layout| && layout[k] == r.value
                                   && forall j :: 0 <= j < k ==> !layout[j].AskLayout?
    ensures r.None? <==> !HasAsk(layout)
  {
    if layout == [] then None
    else if layout[0].AskLayout? then Some(layout[0])
    else
      var r := FirstAsk(layout[1..]);
      assert forall k :: 1 <= k < |layout| ==> layout[k] == layout[1..][k - 1];
      assert r.Some? ==> exists k :: 0 <= k < |layout| && layout[k] == r.value
                                     && forall j :: 0 <= j < k ==> !layout[j].AskLayout? by {
        if r.Some? {
          var k :| 0 <= k < |layout[1..]| && layout[1..][k] == r.value
                   && forall j :: 0 <= j < k ==> !layout[1..][j].AskLayout?;
          assert layout[k + 1] == r.value;
        }
      }
      r
  }

  /** Answer detection (post_archiver.py:275-280): an answer post, a post
      with a question, or one whose root layout has an `ask` entry. */
  predicate IsAnswer(p: Post) {
    p.isAnswerType || (p.question.Some? && p.question.value != "")
    || HasAsk(if p.trail == [] then p.subject.layout else p.trail[0].layout)
  }

  /** The content indices that are not in the ask, in increasing order
      (post_archiver.py:311). */
  function AnswerIndices(n: nat, ask: seq<nat>): seq<nat> {
    if n == 0 then [] else AnswerIndices(n - 1, ask) + (if n - 1 in ask then [] else [n - 1])
  }

  /** A link left out: one without an author, and a reblog without
      content (post_archiver.py:289). */
  predicate Skipped(p: Post, i: nat)
    requires i < |FullChain(p)|
  {
    var l := FullChain(p)[i];
    Author(l) == "" || (i > 0 && l.content == [])
  }

  // ---------------------------------------------------------------------
  // Post ids

  /** The id text the source computes for a link (post_archiver.py:292):
      the post's own id for the last link, and `str` of the link's
      `post.id` for the others, which is `"None"` when that id is absent. */
  function RawLinkPostId(p: Post, i: nat): string
    requires i < |FullChain(p)|
  {
    if i == |FullChain(p)| - 1 then p.id else FullChain(p)[i].refPostId.GetOr("None")
  }

  /** The link's post id (post_archiver.py:292-297). The fallback to the
      post's id applies only to an empty id text, so a link without an
      id keeps the text `"None"`. */
  function LinkPostId(p: Post, i: nat): string
    requires i < |FullChain(p)|
  {
    var raw := RawLinkPostId(p, i);
    if raw == "" then p.id else raw
  }

  /** What a link's blocks are rendered with: its author and its post id. */
  function LinkScope(p: Post, svc: PollService, i: nat): Scope
    requires i < |FullChain(p)|
  {
    Scope(Author(FullChain(p)[i]), LinkPostId(p, i), svc)
  }

  // ---------------------------------------------------------------------
  // Link fragments

  /** The question of a legacy ask: escaped, arrows substituted, quoted
      (post_archiver.py:318-320). */
  function LegacyQuestion(p: Post): string {
    "<blockquote>" + ArrowSubst(Escape(p.question.GetOr(""), false)) + "</blockquote>"
  }

  /** The root link of an answer post with an `ask` layout entry: the
      ask's blocks under the asker, the other blocks as the answer
      (post_archiver.py:305-315). */
  ghost function AskAnswerHtml(p: Post, svc: PollService, ask: LayoutEntry): Option<string>
    requires ask.AskLayout?
  {
    var l := FullChain(p)[0];
    var sc := LinkScope(p, svc, 0);
    var askPart := ParseSpec(l.content, l.layout, Some(ask.blocks), sc);
    var answerPart := ParseSpec(l.content, l.layout, Some(AnswerIndices(|l.content|, ask.blocks)), sc);
    if askPart.None? || answerPart.None? then None
    else
      Some(OpHeader(Author(l), p.rootDate)
           + AskBlock(ask.askerBlog.GetOr("Anonymous"), askPart.value.html)
           + AnswerBlock(Author(l), answerPart.value.html, p.trail != []))
  }

  /** The root link: the header, then the ask and the answer, or the
      original post's content (post_archiver.py:299-324). */
  ghost function RootHtml(p: Post, svc: PollService): Option<string> {
    var l := FullChain(p)[0];
    var u := Author(l);
    var sc := LinkScope(p, svc, 0);
    if IsAnswer(p) then
      match FirstAsk(l.layout)
      case Some(ask) => AskAnswerHtml(p, svc, ask)
      case None =>
        match ParseSpec(l.content, l.layout, None, sc)
        case None => None
        case Some(r) =>
          Some(OpHeader(u, p.rootDate)
               + AskBlock(p.askingName.GetOr("Anonymous"), LegacyQuestion(p))
               + AnswerBlock(u, r.html, p.trail != []))
    else
      match ParseSpec(l.content, l.layout, None, sc)
      case None => None
      case Some(r) => Some(OpHeader(u, p.rootDate) + OpContent(r.html))
  }

  /** A reblog link: its block, or nothing for a last link whose markup
      is blank (post_archiver.py:325-336). */
  ghost function ReblogHtml(p: Post, svc: PollService, i: nat): Option<string>
    requires 0 < i < |FullChain(p)|
  {
    var l := FullChain(p)[i];
    match ParseSpec(l.content, l.layout, None, LinkScope(p, svc, i))
    case None => None
    case Some(r) =>
      if i == |FullChain(p)| - 1 && Strip(r.html) == "" then Some("")
      else Some(ReblogBlock(Author(l), l.date, r.html))
  }

  /** What link `i` adds to the body; `None` when one of its indices is
      past its content. */
  ghost function LinkHtml(p: Post, svc: PollService, i: nat): Option<string>
    requires i < |FullChain(p)|
  {
    if Skipped(p, i) then Some("")
    else if i == 0 then RootHtml(p, svc)
    else ReblogHtml(p, svc, i)
  }

  /** What link `i` adds, for any `i`. */
  ghost function LinkAt(p: Post, svc: PollService, i: nat): Option<string> {
    if i < |FullChain(p)| then LinkHtml(p, svc, i) else None
  }

  /** What the first `n` links add, in chain order. */
  ghost function LinkFragments(p: Post, svc: PollService, n: nat): seq<Option<string>> {
    Tabulate((i: nat) => LinkAt(p, svc, i), n)
  }

  lemma FragmentAt(p: Post, svc: PollService, n: nat, i: nat)
    requires i < n <= |FullChain(p)|
    ensures LinkFragments(p, svc, n)[i] == LinkHtml(p, svc, i)
  {
    TabulateAt((i: nat) => LinkAt(p, svc, i), n, i);
  }

  /** The first `n` fragments joined; `None` once one of them is `None`. */
  function JoinUpTo(frags: seq<Option<string>>, n: nat): Option<string>
    requires n <= |frags|
  {
    if n == 0 then Some("")
    else
      match JoinUpTo(frags, n - 1)
      case None => None
      case Some(body) =>
        match frags[n - 1]
        case None => None
        case Some(h) => Some(body + h)
  }

  /** The body of the post's page: the fragments of all links, joined. */
  ghost function PostBody(p: Post, svc: PollService): Option<string> {
    JoinUpTo(LinkFragments(p, svc, |FullChain(p)|), |FullChain(p)|)
  }

  // ---------------------------------------------------------------------
  // The loop

  method RenderRoot(p: Post, svc: PollService) returns (r: Option<string>)
    ensures r == RootHtml(p, svc)
  {
    var l := FullChain(p)[0];
    var u := Author(l);
    var sc := LinkScope(p, svc, 0);
    if IsAnswer(p) {
      var ask := FirstAsk(l.layout);
      if ask.Some? {
        var askPart := ParseContent(l.content, l.layout, Some(ask.value.blocks), sc);
        var answerPart := ParseContent(l.content, l.layout, Some(AnswerIndices(|l.content|, ask.value.blocks)), sc);
        if askPart.None? || answerPart.None? {
          return None;
        }
        r := Some(OpHeader(u, p.rootDate)
                  + AskBlock(ask.value.askerBlog.GetOr("Anonymous"), askPart.value.html)
                  + AnswerBlock(u, answerPart.value.html, p.trail != []));
      } else {
        var parsed := ParseContent(l.content, l.layout, None, sc);
        if parsed.None? {
          return None;
        }
        r := Some(OpHeader(u, p.rootDate)
                  + AskBlock(p.askingName.GetOr("Anonymous"), LegacyQuestion(p))
                  + AnswerBlock(u, parsed.value.html, p.trail != []));
      }
    } else {
      var parsed := ParseContent(l.content, l.layout, None, sc);
      if parsed.None? {
        return None;
      }
      r := Some(OpHeader(u, p.rootDate) + OpContent(parsed.value.html));
    }
  }

  method RenderReblog(p: Post, svc: PollService, i: nat) returns (r: Option<string>)
    requires 0 < i < |FullChain(p)|
    ensures r == ReblogHtml(p, svc, i)
  {
    var l := FullChain(p)[i];
    var parsed := ParseContent(l.content, l.layout, None, LinkScope(p, svc, i));
    if parsed.None? {
      return None;
    }
    if i == |FullChain(p)| - 1 && Strip(parsed.value.html) == "" {
      return Some("");
    }
    r := Some(ReblogBlock(Author(l), l.date, parsed.value.html));
  }

  /** One link of the chain (post_archiver.py:285-336). */
  method RenderLink(p: Post, svc: PollService, i: nat) returns (h: Option<string>)
    requires i < |FullChain(p)|
    ensures h == LinkHtml(p, svc, i)
  {
    if Skipped(p, i) {
      h := Some("");
    } else if i == 0 {
      h := RenderRoot(p, svc);
    } else {
      h := RenderReblog(p, svc, i);
    }
  }

  /** Link `i`'s fragment, as the loop sees it. */
  method NextFragment(p: Post, svc: PollService, i: nat) returns (h: Option<string>)
    requires i < |FullChain(p)|
    ensures h == LinkFragments(p, svc, |FullChain(p)|)[i]
  {
    h := RenderLink(p, svc, i);
    FragmentAt(p, svc, |FullChain(p)|, i);
  }

  /** The loop over the chain, adding each link's fragment to the body;
      `None` where the source raises `IndexError`. */
  method AssemblePost(p: Post, svc: PollService) returns (body: Option<string>)
    ensures body == PostBody(p, svc)
  {
    var chain := FullChain(p);
    ghost var frags := LinkFragments(p, svc, |chain|);
    var html := "";
    var failed := false;
    var i := 0;
    while i < |chain| && !failed
      invariant 0 <= i <= |chain|
      invariant JoinUpTo(frags, i) == if failed then None else Some(html)
    {
      var h := NextFragment(p, svc, i);
      JoinSnoc(frags, i);
      if h.None? {
        failed := true;
      } else {
        html := html + h.value;
      }
      i := i + 1;
    }
    if failed {
      JoinStaysNone(frags, i);
      body := None;
    } else {
      body := Some(html);
    }
  }

  lemma JoinSnoc(frags: seq<Option<string>>, i: nat)
    requires i < |frags|
    ensures JoinUpTo(frags, i + 1) ==
              if JoinUpTo(frags, i).None? || frags[i].None? then None
              else Some(JoinUpTo(frags, i).value + frags[i].value)
  {
  }

  // ---------------------------------------------------------------------
  // Properties

  /** Once a fragment is `None`, so is the whole join. */
  lemma {:induction false} JoinStaysNone(frags: seq<Option<string>>, n: nat)
    requires n <= |frags| && JoinUpTo(frags, n).None?
    ensures JoinUpTo(frags, |frags|).None?
    decreases |frags| - n
  {
    if n < |frags| {
      JoinStaysNone(frags, n + 1);
    }
  }

  /** The join fails iff one of its fragments is `None`. */
  lemma {:induction false} JoinFailsIff(frags: seq<Option<string>>, n: nat)
    requires n <= |frags|
    ensures JoinUpTo(frags, n).None? <==> exists i :: 0 <= i < n && frags[i].None?
  {
    if n > 0 {
      JoinFailsIff(frags, n - 1);
      if frags[n - 1].None? {
        assert 0 <= n - 1 < n && frags[n - 1].None?;
      }
    }
  }

  /** The fragments `m` to `n`, joined. */
  function JoinFrom(frags: seq<Option<string>>, m: nat, n: nat): string
    requires m <= n <= |frags|
    decreases n - m
  {
    if m == n then "" else JoinFrom(frags, m, n - 1) + frags[n - 1].GetOr("")
  }

  /** Fragments keep their order: the join of `n` fragments is the join
      of the first `m` followed by fragments `m` to `n`. */
  lemma {:induction false} JoinInOrder(frags: seq<Option<string>>, m: nat, n: nat)
    requires m <= n <= |frags| && JoinUpTo(frags, n).Some?
    ensures JoinUpTo(frags, m).Some?
    ensures JoinUpTo(frags, n).value == JoinUpTo(frags, m).value + JoinFrom(frags, m, n)
    decreases n - m
  {
    if m < n {
      JoinInOrder(frags, m, n - 1);
      var a, b, c := JoinUpTo(frags, m).value, JoinFrom(frags, m, n - 1), frags[n - 1].value;
      assert a + b + c == a + (b + c);
    }
  }

  /** The page body fails iff the rendering of one of its links fails
      (an index past the content raises `IndexError`). */
  lemma ChainFailsIffLinkFails(p: Post, svc: PollService)
    ensures PostBody(p, svc).None? <==> exists i :: 0 <= i < |FullChain(p)| && LinkHtml(p, svc, i).None?
  {
    var n := |FullChain(p)|;
    var f := LinkFragments(p, svc, n);
    JoinFailsIff(f, n);
    if exists i :: 0 <= i < n && f[i].None? {
      var i :| 0 <= i < n && f[i].None?;
      FragmentAt(p, svc, n, i);
    }
    if exists i :: 0 <= i < n && LinkHtml(p, svc, i).None? {
      var i :| 0 <= i < n && LinkHtml(p, svc, i).None?;
      FragmentAt(p, svc, n, i);
      assert f[i].None?;
    }
  }

  /** Links contribute in chain order: the body is the first `m` links'
      body followed by the fragments of the remaining links. */
  lemma ChainInOrder(p: Post, svc: PollService, m: nat)
    requires m <= |FullChain(p)| && PostBody(p, svc).Some?
    ensures var f := LinkFragments(p, svc, |FullChain(p)|);
            JoinUpTo(f, m).Some? && PostBody(p, svc).value == JoinUpTo(f, m).value + JoinFrom(f, m, |f|)
  {
    JoinInOrder(LinkFragments(p, svc, |FullChain(p)|), m, |FullChain(p)|);
  }

  /** The link that is skipped adds nothing. */
  lemma SkippedAddsNothing(p: Post, svc: PollService, i: nat)
    requires i < |FullChain(p)| && Skipped(p, i)
    ensures LinkHtml(p, svc, i) == Some("")
  {
  }

  /** Answer detection looks at the root link's layout. */
  lemma AnswerDetectionReadsRoot(p: Post)
    ensures IsAnswer(p) <==>
              p.isAnswerType || (p.question.Some? && p.question.value != "") || HasAsk(FullChain(p)[0].layout)
  {
  }

  /** The chain ends with the post itself and starts with the trail. */
  lemma ChainEndsWithPost(p: Post)
    ensures FullChain(p)[|p.trail|] == p.subject
    ensures FullChain(p)[..|p.trail|] == p.trail
  {
  }

  /** The answer indices are exactly the content indices not in the ask,
      so ask and answer split the content between them. */
  lemma {:induction false} AnswerIndicesExact(n: nat, ask: seq<nat>)
    ensures forall x: nat :: x in AnswerIndices(n, ask) <==> x < n && x !in ask
  {
    if n > 0 {
      AnswerIndicesExact(n - 1, ask);
      var r, t := AnswerIndices(n - 1, ask), if n - 1 in ask then [] else [n - 1];
      assert AnswerIndices(n, ask) == r + t;
      forall x: nat ensures x in r + t <==> x in r || x in t {
      }
    }
  }

  /** The answer indices are in increasing order, as the content is. */
  lemma {:induction false} AnswerIndicesIncreasing(n: nat, ask: seq<nat>)
    ensures forall i, j :: 0 <= i < j < |AnswerIndices(n, ask)| ==> AnswerIndices(n, ask)[i] < AnswerIndices(n, ask)[j]
  {
    if n > 0 {
      AnswerIndicesIncreasing(n - 1, ask);
      AnswerIndicesExact(n - 1, ask);
      var r, s := AnswerIndices(n - 1, ask), AnswerIndices(n, ask);
      if n - 1 in ask {
        assert s == r + [];
        assert s == r;
      } else {
        assert s == r + [n - 1];
        forall i, j | 0 <= i < j < |s| ensures s[i] < s[j] {
          assert s[i] == r[i] && r[i] in r;
          if j < |r| {
            assert s[j] == r[j];
          }
        }
      }
    }
  }

  /** A reblog link (one that is rendered) starts its own block and
      names its reblogger; a blank last link adds nothing. */
  lemma ReblogNamesReblogger(p: Post, svc: PollService, i: nat)
    requires 0 < i < |FullChain(p)| && !Skipped(p, i) && LinkHtml(p, svc, i).Some?
    ensures var l := FullChain(p)[i];
            var r := ParseSpec(l.content, l.layout, None, LinkScope(p, svc, i)).value;
            if i == |FullChain(p)| - 1 && Strip(r.html) == "" then LinkHtml(p, svc, i) == Some("")
            else NameAfter(LinkHtml(p, svc, i).value, ReblogLead) == Some(Author(l))
  {
    var l := FullChain(p)[i];
    var r := ParseSpec(l.content, l.layout, None, LinkScope(p, svc, i)).value;
    ReblogBlockNamesUser(Author(l), l.date, r.html);
  }

  /** The root link of a post that is no answer is the header and the
      post's content. */
  lemma RootOfPost(p: Post, svc: PollService)
    requires !Skipped(p, 0) && !IsAnswer(p) && LinkHtml(p, svc, 0).Some?
    ensures var l := FullChain(p)[0];
            LinkHtml(p, svc, 0).value
              == OpHeader(Author(l), p.rootDate) + OpContent(ParseSpec(l.content, l.layout, None, LinkScope(p, svc, 0)).value.html)
  {
  }

  /** The root link of an answer is the header, an ask block and an answer
      block whose header is there iff the post has a trail. */
  lemma RootOfAnswer(p: Post, svc: PollService) returns (asker: string, question: string, answer: string)
    requires !Skipped(p, 0) && IsAnswer(p) && LinkHtml(p, svc, 0).Some?
    ensures var u := Author(FullChain(p)[0]);
            LinkHtml(p, svc, 0).value == OpHeader(u, p.rootDate) + AskBlock(asker, question) + AnswerBlock(u, answer, p.trail != [])
  {
    var l := FullChain(p)[0];
    var sc := LinkScope(p, svc, 0);
    match FirstAsk(l.layout)
    case Some(ask) =>
      asker := ask.askerBlog.GetOr("Anonymous");
      question := ParseSpec(l.content, l.layout, Some(ask.blocks), sc).value.html;
      answer := ParseSpec(l.content, l.layout, Some(AnswerIndices(|l.content|, ask.blocks)), sc).value.html;
    case None =>
      asker := p.askingName.GetOr("Anonymous");
      question := LegacyQuestion(p);
      answer := ParseSpec(l.content, l.layout, None, sc).value.html;
  }

  /** A legacy ask shows the post's question with no escaped arrow left. */
  lemma LegacyQuestionHasNoEscapedArrows(p: Post)
    ensures var q := ArrowSubst(Escape(p.question.GetOr(""), false));
            LegacyQuestion(p) == "<blockquote>" + q + "</blockquote>" && !Occurs(q, "&lt;-") && !Occurs(q, "-&gt;")
  {
    NoArrowsAfterSubst(Escape(p.question.GetOr(""), false));
  }

  // ---------------------------------------------------------------------
  // The post id of a link

  /** The post id a link is rendered with: the post's own id for the last
      link, the link's id when it has a non-empty one, the text `"None"`
      when it has none, and the post's id only for an empty id. */
  lemma LinkPostIdCases(p: Post, i: nat)
    requires i < |FullChain(p)|
    ensures var l := FullChain(p)[i];
            LinkPostId(p, i) ==
              if i == |FullChain(p)| - 1 then p.id
              else if l.refPostId.None? then "None"
              else if l.refPostId.value == "" then p.id
              else l.refPostId.value
  {
  }

  /** A post whose one trail link has no id: the link's polls are asked
      about as post `"None"`, not as the post's own id. */
  lemma MissingIdExample()
    ensures var link := ChainLink(Some("op"), None, [], [], None, "");
            var p := Post("123", false, None, None, "", [link], ChainLink(Some("me"), None, [], [], None, ""));
            LinkPostId(p, 0) == "None" && LinkPostId(p, 0) != p.id
  {
    var link := ChainLink(Some("op"), None, [], [], None, "");
    var p := Post("123", false, None, None, "", [link], ChainLink(Some("me"), None, [], [], None, ""));
    assert FullChain(p)[0] == link;
  }
}
