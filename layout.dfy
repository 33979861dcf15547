/** `parse_api_content` (post_archiver.py:207-251): the blocks of a post
    laid out by its `rows` layout, the rows past the truncation point
    folded under "Keep Reading", and the list left open at the end
    closed. */
module Layout {
  import opened Util
  import opened HtmlText
  import opened Npf
  import opened BlockRender

  // ---------------------------------------------------------------------
  // Block runs

  /** The blocks at `idx`, in order, starting from the list context
      `list`: their joined markup, their media URLs and the list context
      they leave; `None` when an index is past the content (Python's
      `IndexError`). */
  ghost function RunBlocks(content: seq<Block>, idx: seq<nat>, list: Option<ListKind>, sc: Scope): Option<BlockOut>
    decreases |idx|
  {
    if idx == [] then Some(BlockOut("", [], list))
    else
      match RunBlocks(content, idx[..|idx| - 1], list, sc)
      case None => None
      case Some(acc) =>
        var i := idx[|idx| - 1];
        if i >= |content| then None
        else
          var o := BlockSpec(content[i], acc.list, sc);
          Some(BlockOut(acc.html + o.html, acc.media + o.media, o.list))
  }

  lemma RunBlocksSnoc(content: seq<Block>, idx: seq<nat>, i: nat, list: Option<ListKind>, sc: Scope)
    requires i < |idx|
    ensures RunBlocks(content, idx[..i + 1], list, sc) ==
              match RunBlocks(content, idx[..i], list, sc)
              case None => None
              case Some(acc) =>
                if idx[i] >= |content| then None
                else
                  var o := BlockSpec(content[idx[i]], acc.list, sc);
                  Some(BlockOut(acc.html + o.html, acc.media + o.media, o.list))
  {
    assert idx[..i + 1][..i] == idx[..i];
  }

  /** The loop over a run of indices (post_archiver.py:227-229, 237-240). */
  method RenderBlocks(content: seq<Block>, idx: seq<nat>, list: Option<ListKind>, sc: Scope) returns (r: Option<BlockOut>)
    ensures r == RunBlocks(content, idx, list, sc)
  {
    var acc := BlockOut("", [], list);
    var i := 0;
    while i < |idx|
      invariant 0 <= i <= |idx|
      invariant RunBlocks(content, idx[..i], list, sc) == Some(acc)
    {
      RunBlocksSnoc(content, idx, i, list, sc);
      if idx[i] >= |content| {
        assert idx[..|idx|] == idx;
        NoneStaysNone(content, idx, i + 1, list, sc);
        return None;
      }
      var o := RenderBlock(content[idx[i]], acc.list, sc);
      acc := BlockOut(acc.html + o.html, acc.media + o.media, o.list);
      i := i + 1;
    }
    assert idx[..i] == idx;
    r := Some(acc);
  }

  /** Once an index is past the content, the whole run fails. */
  lemma {:induction false} NoneStaysNone(content: seq<Block>, idx: seq<nat>, n: nat, list: Option<ListKind>, sc: Scope)
    requires n <= |idx| && RunBlocks(content, idx[..n], list, sc).None?
    ensures RunBlocks(content, idx, list, sc).None?
    decreases |idx| - n
  {
    if n < |idx| {
      RunBlocksSnoc(content, idx, n, list, sc);
      NoneStaysNone(content, idx, n + 1, list, sc);
    } else {
      assert idx[..n] == idx;
    }
  }

  // ---------------------------------------------------------------------
  // Rows

  /** The blocks of a row that are to be shown, in the row's order
      (post_archiver.py:221). */
  function Relevant(bs: seq<nat>, wanted: set<nat>): (r: seq<nat>)
    ensures forall i :: i in r <==> i in bs && i in wanted
    decreases |bs|
  {
    if bs == [] then []
    else
      var p := bs[..|bs| - 1];
      var x := bs[|bs| - 1];
      assert bs == p + [x];
      Relevant(p, wanted) + (if x in wanted then [x] else [])
  }

  /** Filtering a row split in two is filtering each part: the shown
      blocks keep the row's order and its repeats. */
  lemma {:induction false} RelevantAppend(a: seq<nat>, b: seq<nat>, wanted: set<nat>)
    ensures Relevant(a + b, wanted) == Relevant(a, wanted) + Relevant(b, wanted)
    decreases |b|
  {
    if b == [] {
      assert a + b == a;
    } else {
      var b', x := b[..|b| - 1], b[|b| - 1];
      assert (a + b)[..|a + b| - 1] == a + b';
      assert (a + b)[|a + b| - 1] == x;
      RelevantAppend(a, b', wanted);
    }
  }

  /** One block is shown iff it is wanted. */
  lemma RelevantSingle(x: nat, wanted: set<nat>)
    ensures Relevant([x], wanted) == if x in wanted then [x] else []
  {
    assert [x][..0] == [];
  }

  /** The least element of a non-empty sequence. */
  function SeqMin(s: seq<nat>): (m: nat)
    requires s != []
    ensures m in s && forall i :: i in s ==> m <= i
    decreases |s|
  {
    if |s| == 1 then s[0]
    else
      var p := s[..|s| - 1];
      assert s == p + [s[|s| - 1]];
      var m := SeqMin(p);
      if s[|s| - 1] < m then s[|s| - 1] else m
  }

  /** A row is folded when its least block index is beyond `truncate_after`
      (post_archiver.py:216-217, 235). */
  predicate Folded(rel: seq<nat>, cut: Option<int>)
    requires rel != []
  {
    cut.Some? && SeqMin(rel) > cut.value
  }

  function RowOpen(n: nat): string {
    "<div class=\"image-row-" + NatToString(n) + "\">\n"
  }

  /** One row: several blocks are wrapped in an `image-row-N` division,
      a single block stands alone (post_archiver.py:224-233). */
  ghost function RowSpec(content: seq<Block>, rel: seq<nat>, list: Option<ListKind>, sc: Scope): Option<BlockOut> {
    match RunBlocks(content, rel, list, sc)
    case None => None
    case Some(o) =>
      if |rel| > 1 then Some(BlockOut(RowOpen(|rel|) + o.html + "</div>\n", o.media, o.list))
      else Some(o)
  }

  method RenderRow(content: seq<Block>, rel: seq<nat>, list: Option<ListKind>, sc: Scope) returns (r: Option<BlockOut>)
    ensures r == RowSpec(content, rel, list, sc)
  {
    r := RenderBlocks(content, rel, list, sc);
    if r.Some? && |rel| > 1 {
      r := Some(BlockOut(RowOpen(|rel|) + r.value.html + "</div>\n", r.value.media, r.value.list));
    }
  }

  /** The markup shown before the fold and after it, the media URLs and
      the list context, once some blocks are rendered. */
  datatype Parts = Parts(before: string, after: string, media: seq<string>, list: Option<ListKind>)

  /** One row added to `acc`. */
  ghost function RowStep(content: seq<Block>, row: Row, wanted: set<nat>, cut: Option<int>, sc: Scope, acc: Parts): Option<Parts> {
    var rel := Relevant(row.blocks, wanted);
    if rel == [] then Some(acc)
    else
      match RowSpec(content, rel, acc.list, sc)
      case None => None
      case Some(o) =>
        if Folded(rel, cut) then Some(Parts(acc.before, acc.after + o.html, acc.media + o.media, o.list))
        else Some(Parts(acc.before + o.html, acc.after, acc.media + o.media, o.list))
  }

  /** The rows of a `rows` layout, in order (post_archiver.py:219-236). */
  ghost function RowsSpec(content: seq<Block>, rows: seq<Row>, wanted: set<nat>, cut: Option<int>, sc: Scope): Option<Parts>
    decreases |rows|
  {
    if rows == [] then Some(Parts("", "", [], None))
    else
      match RowsSpec(content, rows[..|rows| - 1], wanted, cut, sc)
      case None => None
      case Some(acc) => RowStep(content, rows[|rows| - 1], wanted, cut, sc, acc)
  }

  lemma RowsSpecSnoc(content: seq<Block>, rows: seq<Row>, i: nat, wanted: set<nat>, cut: Option<int>, sc: Scope)
    requires i < |rows|
    ensures RowsSpec(content, rows[..i + 1], wanted, cut, sc) ==
              match RowsSpec(content, rows[..i], wanted, cut, sc)
              case None => None
              case Some(acc) => RowStep(content, rows[i], wanted, cut, sc, acc)
  {
    assert rows[..i + 1][..i] == rows[..i];
  }

  /** The rows up to `i` rendered, row `i` is one more step. */
  lemma RowsAdvance(content: seq<Block>, rows: seq<Row>, i: nat, wanted: set<nat>, cut: Option<int>, sc: Scope, acc: Parts)
    requires i < |rows| && RowsSpec(content, rows[..i], wanted, cut, sc) == Some(acc)
    ensures RowsSpec(content, rows[..i + 1], wanted, cut, sc) == RowStep(content, rows[i], wanted, cut, sc, acc)
  {
    RowsSpecSnoc(content, rows, i, wanted, cut, sc);
  }

  /** Once a row fails, all the rows fail. */
  lemma {:induction false} RowsNoneStaysNone(content: seq<Block>, rows: seq<Row>, n: nat, wanted: set<nat>, cut: Option<int>, sc: Scope)
    requires n <= |rows| && RowsSpec(content, rows[..n], wanted, cut, sc).None?
    ensures RowsSpec(content, rows, wanted, cut, sc).None?
    decreases |rows| - n
  {
    if n < |rows| {
      RowsSpecSnoc(content, rows, n, wanted, cut, sc);
      RowsNoneStaysNone(content, rows, n + 1, wanted, cut, sc);
    } else {
      assert rows[..n] == rows;
    }
  }

  /** One row of the loop (post_archiver.py:220-236). */
  method RenderRowStep(content: seq<Block>, row: Row, wanted: set<nat>, cut: Option<int>, sc: Scope, acc: Parts) returns (r: Option<Parts>)
    ensures r == RowStep(content, row, wanted, cut, sc, acc)
  {
    var rel := Relevant(row.blocks, wanted);
    if rel == [] {
      return Some(acc);
    }
    var o := RenderRow(content, rel, acc.list, sc);
    if o.None? {
      return None;
    }
    if Folded(rel, cut) {
      r := Some(Parts(acc.before, acc.after + o.value.html, acc.media + o.value.media, o.value.list));
    } else {
      r := Some(Parts(acc.before + o.value.html, acc.after, acc.media + o.value.media, o.value.list));
    }
  }

  method RenderRows(content: seq<Block>, rows: seq<Row>, wanted: set<nat>, cut: Option<int>, sc: Scope) returns (r: Option<Parts>)
    ensures r == RowsSpec(content, rows, wanted, cut, sc)
  {
    var acc := Parts("", "", [], None);
    var i := 0;
    while i < |rows|
      invariant 0 <= i <= |rows|
      invariant RowsSpec(content, rows[..i], wanted, cut, sc) == Some(acc)
    {
      RowsAdvance(content, rows, i, wanted, cut, sc, acc);
      var next := RenderRowStep(content, rows[i], wanted, cut, sc, acc);
      if next.None? {
        RowsNoneStaysNone(content, rows, i + 1, wanted, cut, sc);
        return None;
      }
      acc := next.value;
      i := i + 1;
    }
    assert rows[..i] == rows;
    r := Some(acc);
  }

  // ---------------------------------------------------------------------
  // The whole content

  /** The markup and the de-duplicated media URLs of some content. */
  datatype Rendered = Rendered(html: string, media: seq<string>)

  /** `list(range(n))`. */
  function Range(n: nat): (r: seq<nat>)
    ensures |r| == n && forall i :: 0 <= i < n ==> r[i] == i
    decreases n
  {
    if n == 0 then [] else Range(n - 1) + [n - 1]
  }

  /** The first `rows` entry of the layout (post_archiver.py:215). */
  function FirstRows(layout: seq<LayoutEntry>): (r: Option<LayoutEntry>)
    ensures r.Some? ==> r.value.RowsLayout? && r.value in layout
    ensures r.Some? ==> exists k :: 0 <= k < |layout| && layout[k] == r.value
                                   && forall j :: 0 <= j < k ==> !layout[j].RowsLayout?
    ensures r.None? ==> forall e :: e in layout ==> !e.RowsLayout?
    decreases |layout|
  {
    if layout == [] then None
    else if layout[0].RowsLayout? then Some(layout[0])
    else
      var r := FirstRows(layout[1..]);
      assert forall e :: e in layout ==> e == layout[0] || e in layout[1..];
      assert r.Some? ==> exists k :: 0 <= k < |layout| && layout[k] == r.value
                                     && forall j :: 0 <= j < k ==> !layout[j].RowsLayout? by {
        if r.Some? {
          var k :| 0 <= k < |layout[1..]| && layout[1..][k] == r.value
                   && forall j :: 0 <= j < k ==> !layout[1..][j].RowsLayout?;
          assert layout[k + 1] == r.value;
          forall j | 0 < j < k + 1 ensures !layout[j].RowsLayout? {
            assert layout[j] == layout[1..][j - 1];
          }
        }
      }
      r
  }

  /** The section past the fold (post_archiver.py:248-249). */
  function Details(after: string): string {
    "<details>\n  <summary>Keep Reading</summary>\n" + after + "</details>\n"
  }

  /** The open list is closed at the end of the folded part when there is
      one, else at the end of the visible part, its trailing newlines
      dropped first (post_archiver.py:242-245). */
  function Close(p: Parts): Parts {
    match p.list
    case None => p
    case Some(k) =>
      if p.after != "" then Parts(p.before, TrimNewlines(p.after) + CloseList(k), p.media, None)
      else Parts(TrimNewlines(p.before) + CloseList(k), p.after, p.media, None)
  }

  /** The list closed, the folded part wrapped and the media
      de-duplicated (post_archiver.py:242-251). */
  function Finish(p: Parts): Rendered {
    var closed := Close(p);
    Rendered(closed.before + (if closed.after != "" then Details(closed.after) else ""), Dedup(p.media))
  }

  /** `set(indices_to_process)`. */
  function IndexSet(idx: seq<nat>): set<nat> {
    set i | i in idx
  }

  /** The indices to render: those given, or all of them. */
  function WantedIndices(content: seq<Block>, indices: Option<seq<nat>>): seq<nat> {
    match indices
    case Some(idx) => idx
    case None => Range(|content|)
  }

  /** The parts of the content before the list is closed: rows of the
      first `rows` layout entry, or the wanted indices in their order. */
  ghost function ContentParts(content: seq<Block>, layout: seq<LayoutEntry>, indices: Option<seq<nat>>, sc: Scope): Option<Parts> {
    var idx := WantedIndices(content, indices);
    match FirstRows(layout)
    case Some(rows) => RowsSpec(content, rows.display, IndexSet(idx), rows.truncateAfter, sc)
    case None =>
      match RunBlocks(content, idx, None, sc)
      case None => None
      case Some(o) => Some(Parts(o.html, "", o.media, o.list))
  }

  /** `parse_api_content`; `None` when an index to render is past the
      content. */
  ghost function ParseSpec(content: seq<Block>, layout: seq<LayoutEntry>, indices: Option<seq<nat>>, sc: Scope): Option<Rendered> {
    if content == [] then Some(Rendered("", []))
    else
      match ContentParts(content, layout, indices, sc)
      case None => None
      case Some(p) => Some(Finish(p))
  }

  method ParseContent(content: seq<Block>, layout: seq<LayoutEntry>, indices: Option<seq<nat>>, sc: Scope) returns (r: Option<Rendered>)
    ensures r == ParseSpec(content, layout, indices, sc)
  {
    if content == [] {
      return Some(Rendered("", []));
    }
    var idx := WantedIndices(content, indices);
    var rows := FirstRows(layout);
    var parts: Option<Parts>;
    if rows.Some? {
      parts := RenderRows(content, rows.value.display, IndexSet(idx), rows.value.truncateAfter, sc);
    } else {
      var o := RenderBlocks(content, idx, None, sc);
      parts := if o.Some? then Some(Parts(o.value.html, "", o.value.media, o.value.list)) else None;
    }
    if parts.None? {
      return None;
    }
    r := Some(Finish(parts.value));
  }

  // ---------------------------------------------------------------------
  // Properties

  /** The row indices that are shown, row by row. */
  function RowIndices(rows: seq<Row>, wanted: set<nat>): seq<nat>
    decreases |rows|
  {
    if rows == [] then []
    else RowIndices(rows[..|rows| - 1], wanted) + Relevant(rows[|rows| - 1].blocks, wanted)
  }

  /** The content indices rendered, in rendering order: the wanted
      indices that the rows of the first `rows` entry show, or the wanted
      indices themselves without one. */
  function ShownIndices(content: seq<Block>, layout: seq<LayoutEntry>, indices: Option<seq<nat>>): seq<nat> {
    var idx := WantedIndices(content, indices);
    match FirstRows(layout)
    case Some(rows) => RowIndices(rows.display, IndexSet(idx))
    case None => idx
  }

  /** A run fails iff one of its indices is past the content. */
  lemma {:induction false} RunFailsIffIndexPastContent(content: seq<Block>, idx: seq<nat>, list: Option<ListKind>, sc: Scope)
    ensures RunBlocks(content, idx, list, sc).None? <==> exists i :: i in idx && i >= |content|
    decreases |idx|
  {
    if idx != [] {
      var p := idx[..|idx| - 1];
      RunFailsIffIndexPastContent(content, p, list, sc);
      RunFailsStep(content, idx, list, sc);
      var x := idx[|idx| - 1];
      assert idx == p + [x];
      assert x in idx;
      assert forall i :: i in idx <==> i in p || i == x;
    }
  }

  lemma RunFailsStep(content: seq<Block>, idx: seq<nat>, list: Option<ListKind>, sc: Scope)
    requires idx != []
    ensures RunBlocks(content, idx, list, sc).None? <==>
              RunBlocks(content, idx[..|idx| - 1], list, sc).None? || idx[|idx| - 1] >= |content|
  {
  }

  lemma {:induction false} RowsFailIffIndexPastContent(content: seq<Block>, rows: seq<Row>, wanted: set<nat>, cut: Option<int>, sc: Scope)
    ensures RowsSpec(content, rows, wanted, cut, sc).None? <==> exists i :: i in RowIndices(rows, wanted) && i >= |content|
    decreases |rows|
  {
    if rows != [] {
      var p := rows[..|rows| - 1];
      var rel := Relevant(rows[|rows| - 1].blocks, wanted);
      RowsFailIffIndexPastContent(content, p, wanted, cut, sc);
      assert RowIndices(rows, wanted) == RowIndices(p, wanted) + rel;
      assert forall i :: i in RowIndices(rows, wanted) <==> i in RowIndices(p, wanted) || i in rel;
      match RowsSpec(content, p, wanted, cut, sc)
      case None =>
      case Some(acc) =>
        RunFailsIffIndexPastContent(content, rel, acc.list, sc);
    }
  }

  /** Rendering fails (Python's `IndexError`) iff a shown index is past
      the content; empty content never fails (post_archiver.py:209). */
  lemma ParseFailsIffIndexPastContent(content: seq<Block>, layout: seq<LayoutEntry>, indices: Option<seq<nat>>, sc: Scope)
    ensures ParseSpec(content, layout, indices, sc).None? <==>
              content != [] && exists i :: i in ShownIndices(content, layout, indices) && i >= |content|
  {
    var idx := WantedIndices(content, indices);
    match FirstRows(layout)
    case Some(rows) =>
      RowsFailIffIndexPastContent(content, rows.display, IndexSet(idx), rows.truncateAfter, sc);
      assert ContentParts(content, layout, indices, sc) == RowsSpec(content, rows.display, IndexSet(idx), rows.truncateAfter, sc);
      assert ShownIndices(content, layout, indices) == RowIndices(rows.display, IndexSet(idx));
    case None =>
      RunFailsIffIndexPastContent(content, idx, None, sc);
      assert ContentParts(content, layout, indices, sc).None? <==> RunBlocks(content, idx, None, sc).None?;
      assert ShownIndices(content, layout, indices) == idx;
  }

  /** The media URL a content index contributes: the first URL of an image
      block with media. */
  function IndexMedia(content: seq<Block>, i: nat): seq<string> {
    if i < |content| && content[i].ImageBlock? && content[i].media != [] then [content[i].media[0]] else []
  }

  /** The media URLs of the blocks at `idx`, in order. */
  function MediaOf(content: seq<Block>, idx: seq<nat>): seq<string>
    decreases |idx|
  {
    if idx == [] then [] else MediaOf(content, idx[..|idx| - 1]) + IndexMedia(content, idx[|idx| - 1])
  }

  lemma {:induction false} MediaOfAppend(content: seq<Block>, a: seq<nat>, b: seq<nat>)
    ensures MediaOf(content, a + b) == MediaOf(content, a) + MediaOf(content, b)
    decreases |b|
  {
    if b != [] {
      var b' := b[..|b| - 1];
      assert (a + b)[..|a + b| - 1] == a + b';
      assert (a + b)[|a + b| - 1] == b[|b| - 1];
      MediaOfAppend(content, a, b');
    } else {
      assert a + b == a;
    }
  }

  lemma {:induction false} RunMedia(content: seq<Block>, idx: seq<nat>, list: Option<ListKind>, sc: Scope)
    requires RunBlocks(content, idx, list, sc).Some?
    ensures RunBlocks(content, idx, list, sc).value.media == MediaOf(content, idx)
    decreases |idx|
  {
    if idx != [] {
      var p := idx[..|idx| - 1];
      RunMedia(content, p, list, sc);
      var acc := RunBlocks(content, p, list, sc).value;
      MediaIsFirstImageUrl(content[idx[|idx| - 1]], acc.list, sc);
    }
  }

  lemma {:induction false} RowsMedia(content: seq<Block>, rows: seq<Row>, wanted: set<nat>, cut: Option<int>, sc: Scope)
    requires RowsSpec(content, rows, wanted, cut, sc).Some?
    ensures RowsSpec(content, rows, wanted, cut, sc).value.media == MediaOf(content, RowIndices(rows, wanted))
    decreases |rows|
  {
    if rows != [] {
      var p, row := rows[..|rows| - 1], rows[|rows| - 1];
      RowsMedia(content, p, wanted, cut, sc);
      RowStepMedia(content, row, wanted, cut, sc, RowsSpec(content, p, wanted, cut, sc).value);
      MediaOfAppend(content, RowIndices(p, wanted), Relevant(row.blocks, wanted));
    }
  }

  lemma RowStepMedia(content: seq<Block>, row: Row, wanted: set<nat>, cut: Option<int>, sc: Scope, acc: Parts)
    requires RowStep(content, row, wanted, cut, sc, acc).Some?
    ensures RowStep(content, row, wanted, cut, sc, acc).value.media == acc.media + MediaOf(content, Relevant(row.blocks, wanted))
  {
    var rel := Relevant(row.blocks, wanted);
    if rel != [] {
      RunMedia(content, rel, acc.list, sc);
    } else {
      assert acc.media + [] == acc.media;
    }
  }

  lemma MediaOfNoContent(content: seq<Block>, idx: seq<nat>)
    requires content == []
    ensures MediaOf(content, idx) == []
    decreases |idx|
  {
  }

  /** The media list holds the first URL of every rendered image block
      with media, in rendering order, each URL once at its first
      occurrence (post_archiver.py:138, 251). */
  lemma MediaAreShownImageUrls(content: seq<Block>, layout: seq<LayoutEntry>, indices: Option<seq<nat>>, sc: Scope)
    requires ParseSpec(content, layout, indices, sc).Some?
    ensures ParseSpec(content, layout, indices, sc).value.media == Dedup(MediaOf(content, ShownIndices(content, layout, indices)))
  {
    var idx := WantedIndices(content, indices);
    if content == [] {
      MediaOfNoContent(content, ShownIndices(content, layout, indices));
    } else {
      match FirstRows(layout)
      case Some(rows) =>
        RowsMedia(content, rows.display, IndexSet(idx), rows.truncateAfter, sc);
      case None =>
        RunMedia(content, idx, None, sc);
    }
  }

  /** Without `truncate_after` nothing is folded. */
  lemma {:induction false} NoCutNoFold(content: seq<Block>, rows: seq<Row>, wanted: set<nat>, sc: Scope)
    requires RowsSpec(content, rows, wanted, None, sc).Some?
    ensures RowsSpec(content, rows, wanted, None, sc).value.after == ""
    decreases |rows|
  {
    if rows != [] {
      NoCutNoFold(content, rows[..|rows| - 1], wanted, sc);
    }
  }

  /** Without a `rows` layout entry, or without `truncate_after`, there is
      no "Keep Reading" section. */
  lemma NoFoldWithoutCut(content: seq<Block>, layout: seq<LayoutEntry>, indices: Option<seq<nat>>, sc: Scope)
    requires ContentParts(content, layout, indices, sc).Some?
    requires FirstRows(layout).None? || FirstRows(layout).value.truncateAfter.None?
    ensures ContentParts(content, layout, indices, sc).value.after == ""
  {
    var idx := WantedIndices(content, indices);
    if FirstRows(layout).Some? {
      NoCutNoFold(content, FirstRows(layout).value.display, IndexSet(idx), sc);
    }
  }

  /** Where a row's markup goes (post_archiver.py:235-236): a row showing
      no wanted block adds nothing; a row whose least shown index is
      beyond `truncate_after` adds its markup to the folded part and
      leaves the visible part as it was; any other row adds its markup to
      the visible part and leaves the folded part as it was. */
  lemma RowPlacement(content: seq<Block>, rows: seq<Row>, row: Row, wanted: set<nat>, cut: Option<int>, sc: Scope)
    requires RowsSpec(content, rows + [row], wanted, cut, sc).Some?
    ensures RowsSpec(content, rows, wanted, cut, sc).Some?
    ensures var acc := RowsSpec(content, rows, wanted, cut, sc).value;
            var r := RowsSpec(content, rows + [row], wanted, cut, sc).value;
            var rel := Relevant(row.blocks, wanted);
            (rel == [] ==> r == acc)
            && (rel != [] ==>
                  RowSpec(content, rel, acc.list, sc).Some?
                  && (Folded(rel, cut) ==>
                        r.before == acc.before
                        && r.after == acc.after + RowSpec(content, rel, acc.list, sc).value.html)
                  && (!Folded(rel, cut) ==>
                        r.before == acc.before + RowSpec(content, rel, acc.list, sc).value.html
                        && r.after == acc.after))
  {
    var all := rows + [row];
    assert all[..|all| - 1] == rows && all[|all| - 1] == row;
  }

  /** A row showing several blocks is wrapped in an `image-row-N` division,
      N being the number of blocks it shows; a row showing one block is
      that block's markup alone (post_archiver.py:224-233). */
  lemma RowWrapper(content: seq<Block>, rel: seq<nat>, list: Option<ListKind>, sc: Scope)
    requires rel != [] && RowSpec(content, rel, list, sc).Some?
    ensures forall i :: i in rel ==> i < |content|
    ensures |rel| > 1 ==>
              StartsWith(RowSpec(content, rel, list, sc).value.html, RowOpen(|rel|))
              && EndsWith(RowSpec(content, rel, list, sc).value.html, "</div>\n")
    ensures |rel| == 1 ==> RowSpec(content, rel, list, sc).value.html == BlockSpec(content[rel[0]], list, sc).html
  {
    RunFailsIffIndexPastContent(content, rel, list, sc);
    var o := RunBlocks(content, rel, list, sc).value;
    if |rel| == 1 {
      assert rel[..0] == [];
      assert rel[0] in rel;
    } else {
      var h := RowOpen(|rel|) + o.html + "</div>\n";
      assert h[..|RowOpen(|rel|)|] == RowOpen(|rel|);
      assert h[|h| - |"</div>\n"|..] == "</div>\n";
    }
  }

  /** Some row of `rows` shows at least one wanted block and is folded. */
  predicate SomeRowFolded(rows: seq<Row>, wanted: set<nat>, cut: Option<int>) {
    exists j :: 0 <= j < |rows| && Relevant(rows[j].blocks, wanted) != [] && Folded(Relevant(rows[j].blocks, wanted), cut)
  }

  /** Markup reaches the folded part only through a row whose least shown
      index is beyond `truncate_after` (post_archiver.py:235-236). */
  lemma {:induction false} FoldNeedsFoldedRow(content: seq<Block>, rows: seq<Row>, wanted: set<nat>, cut: Option<int>, sc: Scope)
    requires RowsSpec(content, rows, wanted, cut, sc).Some?
    requires RowsSpec(content, rows, wanted, cut, sc).value.after != ""
    ensures SomeRowFolded(rows, wanted, cut)
    decreases |rows|
  {
    var p, row := rows[..|rows| - 1], rows[|rows| - 1];
    var rel := Relevant(row.blocks, wanted);
    if rel != [] && Folded(rel, cut) {
      assert rows[|rows| - 1] == row;
    } else {
      var acc := RowsSpec(content, p, wanted, cut, sc).value;
      assert RowStep(content, row, wanted, cut, sc, acc).value.after == acc.after;
      FoldNeedsFoldedRow(content, p, wanted, cut, sc);
      var j :| 0 <= j < |p| && Relevant(p[j].blocks, wanted) != [] && Folded(Relevant(p[j].blocks, wanted), cut);
      assert rows[j] == p[j];
    }
  }

  /** The "Keep Reading" section is there iff some markup was folded, and
      then it comes once, after the visible part, holding all the folded
      markup (post_archiver.py:247-249). */
  lemma KeepReadingIffFolded(content: seq<Block>, layout: seq<LayoutEntry>, indices: Option<seq<nat>>, sc: Scope)
    requires content != [] && ContentParts(content, layout, indices, sc).Some?
    ensures var p := ContentParts(content, layout, indices, sc).value;
            var h := ParseSpec(content, layout, indices, sc).value.html;
            (p.after == "" ==> h == Close(p).before)
            && (p.after != "" ==> Close(p).after != "" && h == Close(p).before + Details(Close(p).after))
  {
    var p := ContentParts(content, layout, indices, sc).value;
    if p.after == "" {
      assert Close(p).after == "";
      assert Close(p).before + "" == Close(p).before;
    } else if p.list.Some? {
      var c := CloseList(p.list.value);
      assert |TrimNewlines(p.after) + c| >= |c| > 0;
    }
  }

  predicate EndsWith(s: string, t: string) {
    |t| <= |s| && s[|s| - |t|..] == t
  }

  /** A list open at the end is closed last: at the end of the visible
      part, or at the end of the folded part, before `</details>`; the
      newlines before the close tag are dropped (post_archiver.py:243-249). */
  lemma ListClosedAtEnd(p: Parts, k: ListKind)
    requires p.list == Some(k)
    ensures p.after == "" ==> EndsWith(Finish(p).html, CloseList(k))
    ensures p.after != "" ==> EndsWith(Finish(p).html, CloseList(k) + "</details>\n")
    ensures p.after == "" ==> Finish(p).html == TrimNewlines(p.before) + CloseList(k)
    ensures p.after != "" ==> Finish(p).html == p.before + Details(TrimNewlines(p.after) + CloseList(k))
  {
    var c := Close(p);
    if p.after == "" {
      assert Finish(p).html == c.before + "";
      assert c.before + "" == c.before;
      EndsWithLast(TrimNewlines(p.before), CloseList(k), "");
      assert CloseList(k) + "" == CloseList(k);
    } else {
      var body := TrimNewlines(p.after);
      assert c.after == body + CloseList(k);
      var pre := p.before + "<details>\n  <summary>Keep Reading</summary>\n" + body;
      assert Finish(p).html == pre + CloseList(k) + "</details>\n";
      EndsWithLast(pre, CloseList(k), "</details>\n");
    }
  }

  /** `x + c + t` ends with `c + t`. */
  lemma EndsWithLast(x: string, c: string, t: string)
    ensures EndsWith(x + c + t, c + t)
  {
    assert (x + c + t)[|x|..] == c + t;
  }
}
