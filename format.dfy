/** The page fragments of a post (post_archiver.py:62-81): each a fixed
    template around an escaped user name and a date or markup. */
module Format {
  import opened Util
  import opened HtmlText

  /** The separator between the verb and the date, U+8DEF. */
  const Separator: string := "\U{8DEF}"

  /** The text of each fragment up to its first user name. */
  const OpLead: string := "<div class=\"op-block\">\n  <p class=\"user-info\">"
  const ReblogLead: string := "<div class=\"reblog-block\">\n  <p class=\"user-info\">"
  const AskLead: string := "<div class=\"ask-block\">\n  <p class=\"asker\"><span>"
  const AnswererLead: string := "  <p class=\"answerer\"><span>"

  /** `format_op_header`: the original poster and the date. */
  function OpHeader(user: string, date: string): string {
    OpLead + Escape(user, false)
    + ("</p>\n  <p class=\"posted\">Posted " + Separator + " <span>" + date + "</span></p>\n</div>")
  }

  /** `format_op_content`: the original post's markup, stripped. */
  function OpContent(h: string): string {
    "<div class=\"op-content\">\n" + Strip(h) + "\n</div>\n"
  }

  /** `format_reblog_block`: a reblogger, the date and their markup, stripped. */
  function ReblogBlock(user: string, date: string, h: string): string {
    ReblogLead + Escape(user, false)
    + ("</p>\n  <p class=\"reblogged\">Reblogged " + Separator + " <span>" + date
       + "</span></p>\n  <div class=\"reblog-content\">" + Strip(h) + "</div>\n</div>")
  }

  /** `format_ask_block`: the asker and the question markup, as given. */
  function AskBlock(asker: string, question: string): string {
    AskLead + Escape(asker, false)
    + ("</span> asked:</p>\n  <div class=\"question\">" + question + "</div>\n</div>")
  }

  /** The `[user] answered:` line of `format_answer_block`, or nothing. */
  function AnswerHeader(user: string, includeHeader: bool): string {
    if includeHeader then AnswererLead + Escape(user, false) + ("</span> answered:</p>\n") else ""
  }

  /** `format_answer_block`: the optional header and the answer markup, stripped. */
  function AnswerBlock(user: string, h: string, includeHeader: bool): string {
    "<div class=\"answer-block\">\n" + AnswerHeader(user, includeHeader)
    + "  <div class=\"answer-content\">" + Strip(h) + "</div>\n</div>"
  }

  // ---------------------------------------------------------------------
  // Reading a name back

  /** The text of `s` before the first `c`. */
  function TakeUntil(s: string, c: char): (r: string)
    ensures |r| <= |s| && r == s[..|r|] && c !in r
    ensures |r| < |s| ==> s[|r|] == c
    decreases |s|
  {
    if s == [] || s[0] == c then "" else [s[0]] + TakeUntil(s[1..], c)
  }

  /** The name a fragment shows after `lead`: the text up to the next tag,
      with its entities decoded; `None` when the fragment does not start
      with `lead`. */
  function NameAfter(h: string, lead: string): Option<string> {
    if StartsWith(h, lead) then Some(Unescape(TakeUntil(h[|lead|..], '<'))) else None
  }

  lemma {:induction false} TakeUntilStops(a: string, b: string, c: char)
    requires c !in a && b != [] && b[0] == c
    ensures TakeUntil(a + b, c) == a
    decreases |a|
  {
    if a != [] {
      assert (a + b)[0] == a[0];
      assert (a + b)[1..] == a[1..] + b;
      TakeUntilStops(a[1..], b, c);
    }
  }

  /** An escaped name followed by a tag reads back as the name. */
  lemma NameRoundTrip(lead: string, name: string, rest: string)
    requires rest != [] && rest[0] == '<'
    ensures NameAfter(lead + Escape(name, false) + rest, lead) == Some(name)
  {
    var e := Escape(name, false);
    var h := lead + e + rest;
    assert h[..|lead|] == lead;
    assert h[|lead|..] == e + rest;
    assert '<' !in e;
    TakeUntilStops(e, rest, '<');
    UnescapeEscape(name, false);
  }

  // ---------------------------------------------------------------------
  // Properties

  /** The header names the original poster, whatever characters the name holds. */
  lemma OpHeaderNamesUser(user: string, date: string)
    ensures NameAfter(OpHeader(user, date), OpLead) == Some(user)
  {
    NameRoundTrip(OpLead, user,
      "</p>\n  <p class=\"posted\">Posted " + Separator + " <span>" + date + "</span></p>\n</div>");
  }

  /** A reblog block names its reblogger. */
  lemma ReblogBlockNamesUser(user: string, date: string, h: string)
    ensures NameAfter(ReblogBlock(user, date, h), ReblogLead) == Some(user)
  {
    NameRoundTrip(ReblogLead, user,
      "</p>\n  <p class=\"reblogged\">Reblogged " + Separator + " <span>" + date
      + "</span></p>\n  <div class=\"reblog-content\">" + Strip(h) + "</div>\n</div>");
  }

  /** An ask block names its asker. */
  lemma AskBlockNamesAsker(asker: string, question: string)
    ensures NameAfter(AskBlock(asker, question), AskLead) == Some(asker)
  {
    var a := "</span> asked:</p>\n  <div class=\"question\">";
    var rest := a + question + "</div>\n</div>";
    assert a[0] == '<';
    assert rest[0] == (a + question)[0] == a[0];
    NameRoundTrip(AskLead, asker, rest);
  }

  /** The answer header is there iff asked for, and then names the answerer. */
  lemma AnswerHeaderIff(user: string, includeHeader: bool)
    ensures AnswerHeader(user, includeHeader) != "" <==> includeHeader
    ensures includeHeader ==> NameAfter(AnswerHeader(user, true), AnswererLead) == Some(user)
  {
    if includeHeader {
      NameRoundTrip(AnswererLead, user, "</span> answered:</p>\n");
    }
  }

  /** Content containers strip their markup: already stripped markup
      gives the same fragment. */
  lemma ContainersStrip(h: string, user: string, date: string, includeHeader: bool)
    ensures OpContent(Strip(h)) == OpContent(h)
    ensures ReblogBlock(user, date, Strip(h)) == ReblogBlock(user, date, h)
    ensures AnswerBlock(user, Strip(h), includeHeader) == AnswerBlock(user, h, includeHeader)
  {
    StripIdempotent(h);
  }
}
