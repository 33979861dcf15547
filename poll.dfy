/** Poll rendering of `_process_single_block` (post_archiver.py:142-202):
    the question, one line per answer with its share of the votes, and a
    total line when any vote was counted. */
module PollRender {
  import opened Util
  import opened HtmlText
  import opened Npf

  /** The poll-results endpoint. `results(blog, post, poll)` is the
      `response.results` map of answer client id to vote count that the
      endpoint delivers, or the empty map when the request, its status or
      its decoding fails; the request itself is not modelled. */
  datatype PollService = PollService(apiKey: string, results: (string, string, string) -> map<string, nat>)

  /** `votes_map`: the endpoint is asked only when the blog name, the post
      id, the poll's client id and the API key are all non-empty
      (post_archiver.py:148-152). */
  function PollVotes(svc: PollService, blogName: string, postId: string, pollId: Option<string>): (votes: map<string, nat>)
    ensures blogName == "" || postId == "" || pollId.None? || pollId.value == "" || svc.apiKey == "" ==> votes == map[]
  {
    if blogName != "" && postId != "" && pollId.Some? && pollId.value != "" && svc.apiKey != "" then
      svc.results(blogName, postId, pollId.value)
    else
      map[]
  }

  // ---------------------------------------------------------------------
  // Vote totals

  /** The sum of all vote counts of a votes map. */
  ghost function MapSum(m: map<string, nat>): nat
    decreases |m.Keys|
  {
    if m == map[] then 0
    else
      var k :| k in m;
      assert |(m - {k}).Keys| < |m.Keys| by { assert (m - {k}).Keys == m.Keys - {k}; }
      m[k] + MapSum(m - {k})
  }

  /** The sum does not depend on which key is taken out first. */
  lemma {:induction false} MapSumRemove(m: map<string, nat>, k: string)
    requires k in m
    ensures MapSum(m) == m[k] + MapSum(m - {k})
    decreases |m.Keys|
  {
    assert m != map[];
    var j :| j in m && MapSum(m) == m[j] + MapSum(m - {j});
    if j != k {
      assert (m - {j}).Keys == m.Keys - {j};
      assert (m - {k}).Keys == m.Keys - {k};
      MapSumRemove(m - {j}, k);
      MapSumRemove(m - {k}, j);
      assert m - {j} - {k} == m - {k} - {j};
    }
  }

  /** No single count exceeds the total. */
  lemma CountAtMostSum(m: map<string, nat>, k: string)
    requires k in m
    ensures m[k] <= MapSum(m)
  {
    MapSumRemove(m, k);
  }

  /** `sum(votes_map.values())` (post_archiver.py:164). */
  method TotalVotes(votes: map<string, nat>) returns (total: nat)
    ensures total == MapSum(votes)
  {
    total := 0;
    var rest := votes;
    while rest != map[]
      invariant total + MapSum(rest) == MapSum(votes)
      decreases |rest.Keys|
    {
      var k :| k in rest;
      MapSumRemove(rest, k);
      total := total + rest[k];
      assert (rest - {k}).Keys == rest.Keys - {k};
      rest := rest - {k};
    }
  }

  /** `votes_map.get(client_id, 0)`: an answer without a client id, or whose
      id the map lacks, has no votes. */
  function VotesFor(clientId: Option<string>, votes: map<string, nat>): (n: nat)
    ensures clientId.None? || clientId.value !in votes ==> n == 0
  {
    match clientId
    case Some(id) => if id in votes then votes[id] else 0
    case None => 0
  }

  /** An answer never has more votes than the poll in total. */
  lemma VotesAtMostTotal(clientId: Option<string>, votes: map<string, nat>)
    ensures VotesFor(clientId, votes) <= MapSum(votes)
  {
    if clientId.Some? && clientId.value in votes {
      CountAtMostSum(votes, clientId.value);
    }
  }

  /** `f'{votes / total * 100:.0f}'` computed on exact rationals:
      100 * votes / total rounded to the nearest integer, ties to the even
      one, and 0 when there are no votes at all (post_archiver.py:187-189). */
  function Percentage(votes: nat, total: nat): (p: nat)
    ensures total == 0 ==> p == 0
    ensures votes <= total ==> p <= 100
  {
    if total == 0 then 0
    else
      var n := 100 * votes;
      DivIsNat(n, total);
      var q: nat := n / total;
      var r: nat := n % total;
      var p := if 2 * r > total || (2 * r == total && q % 2 == 1) then q + 1 else q;
      RoundingBounds(votes, total, q, r, p);
      p
  }

  /** The percentage is an integer nearest to 100 * votes / total. */
  lemma PercentageIsNearest(votes: nat, total: nat)
    requires total > 0
    ensures -(total as int) <= 2 * (Percentage(votes, total) * total - 100 * votes) <= total
  {
    var n := 100 * votes;
    DivIsNat(n, total);
    var q: nat := n / total;
    var r: nat := n % total;
    RoundingBounds(votes, total, q, r, Percentage(votes, total));
  }

  lemma DivIsNat(n: nat, d: nat)
    requires d > 0
    ensures n / d >= 0 && n % d >= 0
  {
  }

  lemma {:induction false} MulMono(a: nat, b: nat, c: nat)
    requires a <= b
    ensures a * c <= b * c
    decreases c
  {
    if c > 0 {
      MulMono(a, b, c - 1);
      assert a * c == a * (c - 1) + a && b * c == b * (c - 1) + b;
    }
  }

  /** The facts about the quotient and remainder `Percentage` relies on. */
  lemma RoundingBounds(votes: nat, total: nat, q: nat, r: nat, p: nat)
    requires total > 0 && q == 100 * votes / total && r == 100 * votes % total
    requires p == q || (p == q + 1 && 2 * r >= total)
    requires p == q ==> 2 * r <= total
    ensures -(total as int) <= 2 * (p * total - 100 * votes) <= total
    ensures votes <= total ==> p <= 100
  {
    assert q * total + r == 100 * votes;
    assert p * total == q * total || p * total == q * total + total;
    if votes <= total {
      if q > 100 {
        MulMono(101, q, total);
        assert false;
      }
      if q == 100 {
        assert r == 0;
      }
    }
  }

  /** Ties are broken towards the even percentage, as `:.0f` does. */
  lemma PercentageTieIsEven(votes: nat, total: nat)
    requires total > 0 && 2 * (100 * votes % total) == total
    ensures Percentage(votes, total) % 2 == 0
  {
  }

  // ---------------------------------------------------------------------
  // Markup

  /** Question and answer text: escaped, then the arrows substituted
      (post_archiver.py:176, 192). */
  function DisplayText(s: string): string {
    ArrowSubst(Escape(s, false))
  }

  /** No escaped arrow is left in question or answer text. */
  lemma DisplayTextHasNoArrows(s: string)
    ensures !Occurs(DisplayText(s), "&lt;-") && !Occurs(DisplayText(s), "-&gt;")
  {
    NoArrowsAfterSubst(Escape(s, false));
  }

  /** The lines a poll block is made of, each holding the raw values it
      shows: the question and answer texts before escaping, an answer's
      vote count and the poll's total. */
  datatype PollLine =
    | PollOpen
    | Question(text: string)
    | OptionsOpen
    | Answer(text: string, votes: nat, total: nat)
    | OptionsClose
    | TotalVotesLine(total: nat)
    | PollClose

  /** The fixed parts of an answer item, around its percentage and text. */
  const ItemOpen: string := "    <li style=\"background: linear-gradient(to right, #f0f0f0 "
  const ItemMid: string := "%, transparent "
  const ItemMid2: string := "%); padding: 0.25em 0.5em;\" data-percentage=\""
  const ItemMid3: string := "\">"
  const ItemPct: string := " <span class=\"poll-percentage\">("
  const ItemClose: string := "%)</span></li>\n"

  /** The markup of one line. */
  function LineHtml(l: PollLine): string {
    match l
    case PollOpen => "<div class=\"poll-block\">\n"
    case Question(t) => "  <p class=\"poll-question\"><strong>" + DisplayText(t) + "</strong></p>\n"
    case OptionsOpen => "  <ul class=\"poll-options\">\n"
    case Answer(t, v, total) =>
      var p := NatToString(Percentage(v, total));
      ItemOpen + p + ItemMid + p + ItemMid2 + p + ItemMid3
        + DisplayText(t) + ItemPct + p + ItemClose
    case OptionsClose => "  </ul>\n"
    case TotalVotesLine(total) => "  <p class=\"poll-total-votes\">" + WithThousands(total) + " votes total</p>\n"
    case PollClose => "</div>\n"
  }

  function LinesHtml(ls: seq<PollLine>): string
    decreases |ls|
  {
    if ls == [] then "" else LinesHtml(ls[..|ls| - 1]) + LineHtml(ls[|ls| - 1])
  }

  lemma LinesHtmlSnoc(ls: seq<PollLine>, l: PollLine)
    ensures LinesHtml(ls + [l]) == LinesHtml(ls) + LineHtml(l)
  {
    var s := ls + [l];
    assert s[..|s| - 1] == ls && s[|s| - 1] == l;
  }

  lemma LinesHtmlSingle(l: PollLine)
    ensures LinesHtml([l]) == LineHtml(l)
  {
    assert [l][..0] == [];
  }

  /** The list item of one answer (post_archiver.py:181-198): its text,
      `...` when absent, and the votes its client id has in the map. */
  function AnswerOf(a: PollAnswer, votes: map<string, nat>, total: nat): PollLine {
    Answer(a.answerText.GetOr("..."), VotesFor(a.clientId, votes), total)
  }

  /** The list items of the answers, one per answer. */
  function AnswerLines(answers: seq<PollAnswer>, votes: map<string, nat>, total: nat): (r: seq<PollLine>)
    ensures |r| == |answers|
    decreases |answers|
  {
    if answers == [] then []
    else AnswerLines(answers[..|answers| - 1], votes, total) + [AnswerOf(answers[|answers| - 1], votes, total)]
  }

  /** The `i`-th item is the item of the `i`-th answer, so the items keep
      the answers' order. */
  lemma {:induction false} AnswerLinesInOrder(answers: seq<PollAnswer>, votes: map<string, nat>, total: nat, i: nat)
    requires i < |answers|
    ensures AnswerLines(answers, votes, total)[i] == AnswerOf(answers[i], votes, total)
    decreases |answers|
  {
    var p := answers[..|answers| - 1];
    if i < |p| {
      AnswerLinesInOrder(p, votes, total, i);
    }
  }

  /** The lines of a poll block, in order: the opening and the question,
      the options list, the total line and the closing. */
  function PollLines(question: Option<string>, answers: seq<PollAnswer>, votes: map<string, nat>, total: nat): seq<PollLine> {
    PollHead(question) + PollOptions(answers, votes, total) + PollTotal(total) + [PollClose]
  }

  /** The question defaults to `Poll`. */
  function PollHead(question: Option<string>): seq<PollLine> {
    [PollOpen, Question(question.GetOr("Poll"))]
  }

  function PollOptions(answers: seq<PollAnswer>, votes: map<string, nat>, total: nat): seq<PollLine> {
    if answers == [] then [] else [OptionsOpen] + AnswerLines(answers, votes, total) + [OptionsClose]
  }

  function PollTotal(total: nat): seq<PollLine> {
    if total > 0 then [TotalVotesLine(total)] else []
  }

  /** An answer's percentage is at most 100, and 0 when no vote was
      counted (post_archiver.py:187-189). */
  lemma PercentagesBounded(a: PollAnswer, votes: map<string, nat>)
    ensures var l := AnswerOf(a, votes, MapSum(votes));
            Percentage(l.votes, l.total) <= 100 && (l.total == 0 ==> Percentage(l.votes, l.total) == 0)
  {
    VotesAtMostTotal(a.clientId, votes);
  }

  /** The options list is opened iff the poll has answers, and then holds
      one item per answer, in order (post_archiver.py:179-199). */
  lemma OptionsListIffAnswers(question: Option<string>, answers: seq<PollAnswer>, votes: map<string, nat>, total: nat)
    ensures OptionsOpen in PollLines(question, answers, votes, total) <==> answers != []
    ensures answers != [] ==>
              PollLines(question, answers, votes, total)[3..3 + |answers|] == AnswerLines(answers, votes, total)
  {
    var lines := PollLines(question, answers, votes, total);
    var head, opts, tot := PollHead(question), PollOptions(answers, votes, total), PollTotal(total);
    var al := AnswerLines(answers, votes, total);
    assert OptionsOpen !in head && OptionsOpen !in tot && OptionsOpen !in [PollClose];
    if answers != [] {
      assert opts == [OptionsOpen] + al + [OptionsClose];
      assert lines[2] == opts[0] == OptionsOpen;
      forall i | 0 <= i < |answers| ensures lines[3 + i] == al[i] {
        assert lines[3 + i] == opts[1 + i];
      }
    }
  }

  /** The total line appears iff at least one vote was counted, and then
      shows that total (post_archiver.py:200-201). */
  lemma TotalLineIffVotes(question: Option<string>, answers: seq<PollAnswer>, votes: map<string, nat>, total: nat)
    ensures (exists i :: 0 <= i < |PollLines(question, answers, votes, total)| && PollLines(question, answers, votes, total)[i].TotalVotesLine?) <==> total > 0
    ensures forall i :: 0 <= i < |PollLines(question, answers, votes, total)| && PollLines(question, answers, votes, total)[i].TotalVotesLine? ==>
              PollLines(question, answers, votes, total)[i].total == total
  {
    var lines := PollLines(question, answers, votes, total);
    var head, opts, tot := PollHead(question), PollOptions(answers, votes, total), PollTotal(total);
    var al := AnswerLines(answers, votes, total);
    forall i | 0 <= i < |opts| ensures !opts[i].TotalVotesLine? {
      if 0 < i < |opts| - 1 {
        assert opts[i] == al[i - 1];
        AnswerLinesInOrder(answers, votes, total, i - 1);
      }
    }
    forall i | 0 <= i < |lines| ensures lines[i].TotalVotesLine? ==> i == |head| + |opts| && total > 0 {
      if i < |head| {
        assert lines[i] == head[i];
      } else if i < |head| + |opts| {
        assert lines[i] == opts[i - |head|];
      } else if i >= |head| + |opts| + |tot| {
        assert lines[i] == PollClose;
      }
    }
    if total > 0 {
      assert lines[|head| + |opts|] == TotalVotesLine(total);
    }
  }

  lemma {:induction false} LinesHtmlAppend(a: seq<PollLine>, b: seq<PollLine>)
    ensures LinesHtml(a + b) == LinesHtml(a) + LinesHtml(b)
    decreases |b|
  {
    if b == [] {
      assert a + b == a;
    } else {
      var b', l := b[..|b| - 1], b[|b| - 1];
      assert b == b' + [l];
      assert a + b == (a + b') + [l];
      LinesHtmlSnoc(a + b', l);
      LinesHtmlSnoc(b', l);
      LinesHtmlAppend(a, b');
      AppendAssoc(LinesHtml(a), LinesHtml(b'), LineHtml(l));
    }
  }

  lemma AnswersHtmlSnoc(answers: seq<PollAnswer>, votes: map<string, nat>, total: nat, i: nat)
    requires i < |answers|
    ensures LinesHtml(AnswerLines(answers[..i + 1], votes, total))
            == LinesHtml(AnswerLines(answers[..i], votes, total)) + LineHtml(AnswerOf(answers[i], votes, total))
  {
    assert answers[..i + 1][..i] == answers[..i];
    LinesHtmlSnoc(AnswerLines(answers[..i], votes, total), AnswerOf(answers[i], votes, total));
  }

  /** The `for answer in display_answers` loop (post_archiver.py:181-198). */
  method RenderAnswers(answers: seq<PollAnswer>, votes: map<string, nat>, total: nat) returns (html: string)
    ensures html == LinesHtml(AnswerLines(answers, votes, total))
  {
    html := "";
    var i := 0;
    while i < |answers|
      invariant 0 <= i <= |answers|
      invariant html == LinesHtml(AnswerLines(answers[..i], votes, total))
    {
      AnswersHtmlSnoc(answers, votes, total, i);
      html := html + LineHtml(AnswerOf(answers[i], votes, total));
      i := i + 1;
    }
    assert answers[..i] == answers;
  }

  /** The markup of a poll block, part by part. */
  lemma PollHtmlParts(question: Option<string>, answers: seq<PollAnswer>, votes: map<string, nat>, total: nat)
    ensures LinesHtml(PollLines(question, answers, votes, total))
            == LinesHtml(PollHead(question)) + LinesHtml(PollOptions(answers, votes, total))
               + LinesHtml(PollTotal(total)) + LineHtml(PollClose)
  {
    var head, opts, tot := PollHead(question), PollOptions(answers, votes, total), PollTotal(total);
    LinesHtmlAppend(head, opts);
    LinesHtmlAppend(head + opts, tot);
    LinesHtmlSnoc(head + opts + tot, PollClose);
  }

  lemma HeadHtml(question: Option<string>)
    ensures LinesHtml(PollHead(question)) == LineHtml(PollOpen) + LineHtml(Question(question.GetOr("Poll")))
  {
    LinesHtmlSingle(PollOpen);
    LinesHtmlSnoc([PollOpen], Question(question.GetOr("Poll")));
    assert [PollOpen] + [Question(question.GetOr("Poll"))] == PollHead(question);
  }

  lemma OptionsHtml(answers: seq<PollAnswer>, votes: map<string, nat>, total: nat)
    requires answers != []
    ensures LinesHtml(PollOptions(answers, votes, total))
            == LineHtml(OptionsOpen) + LinesHtml(AnswerLines(answers, votes, total)) + LineHtml(OptionsClose)
  {
    LinesHtmlSingle(OptionsOpen);
    LinesHtmlAppend([OptionsOpen], AnswerLines(answers, votes, total));
    LinesHtmlSnoc([OptionsOpen] + AnswerLines(answers, votes, total), OptionsClose);
  }

  lemma TotalHtml(total: nat)
    requires total > 0
    ensures LinesHtml(PollTotal(total)) == LineHtml(TotalVotesLine(total))
  {
    LinesHtmlSingle(TotalVotesLine(total));
  }

  /** Renders a poll block (post_archiver.py:142-202) from the votes map the
      endpoint gave. */
  method RenderPoll(question: Option<string>, answers: seq<PollAnswer>, votes: map<string, nat>) returns (html: string)
    ensures html == LinesHtml(PollLines(question, answers, votes, MapSum(votes)))
  {
    var total := TotalVotes(votes);
    PollHtmlParts(question, answers, votes, total);
    HeadHtml(question);
    var head := LineHtml(PollOpen) + LineHtml(Question(question.GetOr("Poll")));
    var options := "";
    if answers != [] {
      var items := RenderAnswers(answers, votes, total);
      OptionsHtml(answers, votes, total);
      options := LineHtml(OptionsOpen) + items + LineHtml(OptionsClose);
    }
    var totalLine := "";
    if total > 0 {
      TotalHtml(total);
      totalLine := LineHtml(TotalVotesLine(total));
    }
    html := head + options + totalLine + LineHtml(PollClose);
  }
}
