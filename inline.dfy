/** The span formatter of `_process_single_block` (post_archiver.py:98-119):
    formatting spans become a map from character offset to a bucket of
    tags, and the text is cut at the bucket offsets, in ascending order,
    into escaped pieces with the buckets' tags between them. */
module Inline {
  import opened Util
  import opened HtmlText
  import opened Npf

  /** Span types that have a tag pair; any other type adds nothing. */
  predicate Known(k: SpanKind) {
    !k.UnknownSpan?
  }

  datatype Tag = Open(kind: SpanKind) | Close(kind: SpanKind)

  /** The markup of a tag; a link's `url` (default `#`) is attribute-escaped. */
  function TagHtml(t: Tag): string {
    match t
    case Open(Bold) => "<strong>"
    case Open(Italic) => "<em>"
    case Open(Small) => "<small>"
    case Open(Strikethrough) => "<s>"
    case Open(Link(url)) => "<a href=\"" + Escape(url.GetOr("#"), true) + "\">"
    case Close(Bold) => "</strong>"
    case Close(Italic) => "</em>"
    case Close(Small) => "</small>"
    case Close(Strikethrough) => "</s>"
    case Close(Link(_)) => "</a>"
    case _ => ""
  }

  /** An element of `text_parts`: a segment of the raw text (emitted
      escaped) or a tag. */
  datatype Piece = TextPiece(text: string) | TagPiece(tag: Tag)

  function PieceHtml(p: Piece): string {
    match p
    case TextPiece(s) => Escape(s, false)
    case TagPiece(t) => TagHtml(t)
  }

  /** `"".join(text_parts)`. */
  function PiecesHtml(ps: seq<Piece>): string
    decreases |ps|
  {
    if ps == [] then "" else PiecesHtml(ps[..|ps| - 1]) + PieceHtml(ps[|ps| - 1])
  }

  /** The text segments alone, tags removed. */
  function TextOf(ps: seq<Piece>): string
    decreases |ps|
  {
    if ps == [] then ""
    else TextOf(ps[..|ps| - 1]) + (if ps[|ps| - 1].TextPiece? then ps[|ps| - 1].text else "")
  }

  /** The markup of the text pieces alone, tags removed. */
  function EscapedTextOf(ps: seq<Piece>): string
    decreases |ps|
  {
    if ps == [] then ""
    else EscapedTextOf(ps[..|ps| - 1]) + (if ps[|ps| - 1].TextPiece? then Escape(ps[|ps| - 1].text, false) else "")
  }

  /** Escaping segment by segment is escaping the whole text. */
  lemma {:induction false} EscapedTextIsEscapedText(ps: seq<Piece>)
    ensures EscapedTextOf(ps) == Escape(TextOf(ps), false)
    decreases |ps|
  {
    if ps != [] {
      var p := ps[..|ps| - 1];
      EscapedTextIsEscapedText(p);
      var last := if ps[|ps| - 1].TextPiece? then ps[|ps| - 1].text else "";
      EscapeAppend(TextOf(p), last, false);
      assert Escape("", false) == "";
    } else {
      assert Escape("", false) == "";
    }
  }

  lemma {:induction false} TextOfAppend(a: seq<Piece>, b: seq<Piece>)
    ensures TextOf(a + b) == TextOf(a) + TextOf(b)
    decreases |b|
  {
    if b == [] {
      assert a + b == a;
    } else {
      assert (a + b)[..|a + b| - 1] == a + b[..|b| - 1];
      TextOfAppend(a, b[..|b| - 1]);
    }
  }

  function TagPieces(ts: seq<Tag>): (r: seq<Piece>)
    ensures |r| == |ts| && forall i :: 0 <= i < |ts| ==> r[i] == TagPiece(ts[i])
  {
    seq(|ts|, i requires 0 <= i < |ts| => TagPiece(ts[i]))
  }

  lemma {:induction false} TextOfTags(ts: seq<Tag>)
    ensures TextOf(TagPieces(ts)) == ""
    decreases |ts|
  {
    if ts != [] {
      assert TagPieces(ts)[..|ts| - 1] == TagPieces(ts[..|ts| - 1]);
      TextOfTags(ts[..|ts| - 1]);
    }
  }

  function Reverse<T>(s: seq<T>): (r: seq<T>)
    ensures |r| == |s| && forall i :: 0 <= i < |s| ==> r[i] == s[|s| - 1 - i]
  {
    seq(|s|, i requires 0 <= i < |s| => s[|s| - 1 - i])
  }

  // ---------------------------------------------------------------------
  // The markers map, described span by span

  /** Opening tags of the known spans starting at `k`, in registration order. */
  function OpensAt(fs: seq<FormatSpan>, k: nat): (r: seq<Tag>)
    ensures forall t :: t in r ==> t.Open?
    decreases |fs|
  {
    if fs == [] then []
    else
      var f := fs[|fs| - 1];
      OpensAt(fs[..|fs| - 1], k) + (if Known(f.kind) && f.start == k then [Open(f.kind)] else [])
  }

  /** Closing tags of the known spans ending at `k`, in registration order. */
  function ClosesAt(fs: seq<FormatSpan>, k: nat): (r: seq<Tag>)
    ensures forall t :: t in r ==> t.Close?
    decreases |fs|
  {
    if fs == [] then []
    else
      var f := fs[|fs| - 1];
      ClosesAt(fs[..|fs| - 1], k) + (if Known(f.kind) && f.end == k then [Close(f.kind)] else [])
  }

  /** The offsets at which some known span starts or ends. */
  function MarkerKeys(fs: seq<FormatSpan>): set<nat>
    decreases |fs|
  {
    if fs == [] then {}
    else
      var f := fs[|fs| - 1];
      MarkerKeys(fs[..|fs| - 1]) + (if Known(f.kind) then {f.start, f.end} else {})
  }

  /** The bucket at `k`: closing tags in reverse registration order, then
      opening tags in registration order. */
  function Bucket(fs: seq<FormatSpan>, k: nat): seq<Tag> {
    Reverse(ClosesAt(fs, k)) + OpensAt(fs, k)
  }

  function MarkerMap(fs: seq<FormatSpan>): map<nat, seq<Tag>> {
    map k | k in MarkerKeys(fs) :: Bucket(fs, k)
  }

  lemma {:induction false} NoTagsOffKeys(fs: seq<FormatSpan>, k: nat)
    requires k !in MarkerKeys(fs)
    ensures OpensAt(fs, k) == [] && ClosesAt(fs, k) == [] && Bucket(fs, k) == []
    decreases |fs|
  {
    if fs != [] { NoTagsOffKeys(fs[..|fs| - 1], k); }
  }

  /** Registering one more span adds its two offsets as keys. */
  lemma KeysSnoc(p: seq<FormatSpan>, f: FormatSpan)
    ensures MarkerKeys(p + [f]) == MarkerKeys(p) + (if Known(f.kind) then {f.start, f.end} else {})
  {
    var q := p + [f];
    assert q[..|q| - 1] == p && q[|q| - 1] == f;
  }

  /** Registering one more span: its closing tag goes to the front of the
      bucket at its end, its opening tag to the back of the bucket at its start. */
  lemma BucketSnoc(p: seq<FormatSpan>, f: FormatSpan, k: nat)
    ensures Bucket(p + [f], k) ==
              (if Known(f.kind) && f.end == k then [Close(f.kind)] else []) + Bucket(p, k) +
              (if Known(f.kind) && f.start == k then [Open(f.kind)] else [])
  {
    var q := p + [f];
    assert q[..|q| - 1] == p && q[|q| - 1] == f;
    var c := if Known(f.kind) && f.end == k then [Close(f.kind)] else [];
    var o := if Known(f.kind) && f.start == k then [Open(f.kind)] else [];
    assert ClosesAt(q, k) == ClosesAt(p, k) + c;
    assert OpensAt(q, k) == OpensAt(p, k) + o;
    assert Reverse(ClosesAt(p, k) + c) == c + Reverse(ClosesAt(p, k));
  }

  /** Within one bucket every closing tag comes before every opening tag. */
  lemma ClosesBeforeOpens(fs: seq<FormatSpan>, k: nat)
    ensures forall i, j :: 0 <= i < j < |Bucket(fs, k)| && Bucket(fs, k)[i].Open? ==> Bucket(fs, k)[j].Open?
  {
    var c := Reverse(ClosesAt(fs, k));
    var b := Bucket(fs, k);
    forall i | 0 <= i < |b| ensures b[i].Open? <==> i >= |c| {
      if i < |c| {
        assert b[i] == c[i] == ClosesAt(fs, k)[|c| - 1 - i];
        assert ClosesAt(fs, k)[|c| - 1 - i] in ClosesAt(fs, k);
      } else {
        assert b[i] == OpensAt(fs, k)[i - |c|];
        assert OpensAt(fs, k)[i - |c|] in OpensAt(fs, k);
      }
    }
  }

  function KnownOnly(fs: seq<FormatSpan>): seq<FormatSpan>
    decreases |fs|
  {
    if fs == [] then []
    else KnownOnly(fs[..|fs| - 1]) + (if Known(fs[|fs| - 1].kind) then [fs[|fs| - 1]] else [])
  }

  /** Spans of an unknown type contribute no key. */
  lemma {:induction false} UnknownSpansAddNoKeys(fs: seq<FormatSpan>)
    ensures MarkerKeys(KnownOnly(fs)) == MarkerKeys(fs)
    decreases |fs|
  {
    if fs != [] {
      var p := fs[..|fs| - 1];
      var f := fs[|fs| - 1];
      UnknownSpansAddNoKeys(p);
      assert fs == p + [f];
      KeysSnoc(p, f);
      KeysSnoc(KnownOnly(p), f);
      if Known(f.kind) {
        assert KnownOnly(fs) == KnownOnly(p) + [f];
      } else {
        assert KnownOnly(fs) == KnownOnly(p) + [] == KnownOnly(p);
        assert MarkerKeys(fs) == MarkerKeys(p) + {} == MarkerKeys(p);
      }
    }
  }

  /** Spans of an unknown type contribute no tag. */
  lemma {:induction false} UnknownSpansAddNoTags(fs: seq<FormatSpan>, k: nat)
    ensures Bucket(KnownOnly(fs), k) == Bucket(fs, k)
    decreases |fs|
  {
    if fs != [] {
      var p := fs[..|fs| - 1];
      var f := fs[|fs| - 1];
      UnknownSpansAddNoTags(p, k);
      assert fs == p + [f];
      BucketSnoc(p, f, k);
      if Known(f.kind) {
        assert KnownOnly(fs) == KnownOnly(p) + [f];
        BucketSnoc(KnownOnly(p), f, k);
      } else {
        assert KnownOnly(fs) == KnownOnly(p) + [] == KnownOnly(p);
        assert Bucket(fs, k) == [] + Bucket(p, k) + [] == Bucket(p, k);
      }
    }
  }

  /** The bucket at `k` of a markers map, empty when `k` is not a key. */
  function BucketOf(m: map<nat, seq<Tag>>, k: nat): seq<Tag> {
    if k in m then m[k] else []
  }

  /** A markers map that agrees with the spans registered so far. */
  ghost predicate MarkersFor(m: map<nat, seq<Tag>>, fs: seq<FormatSpan>) {
    m.Keys == MarkerKeys(fs) && forall k :: k in m ==> m[k] == Bucket(fs, k)
  }

  /** One iteration of the `markers` loop keeps the map in agreement. */
  lemma MarkersStep(m0: map<nat, seq<Tag>>, m1: map<nat, seq<Tag>>, p: seq<FormatSpan>, f: FormatSpan)
    requires MarkersFor(m0, p)
    requires Known(f.kind) ==> m1 == (var m := m0[f.start := BucketOf(m0, f.start) + [Open(f.kind)]];
                                     m[f.end := [Close(f.kind)] + BucketOf(m, f.end)])
    requires !Known(f.kind) ==> m1 == m0
    ensures MarkersFor(m1, p + [f])
  {
    KeysSnoc(p, f);
    forall k | k in m1 ensures m1[k] == Bucket(p + [f], k) {
      BucketSnoc(p, f, k);
      var b := BucketOf(m0, k);
      if k !in m0 { NoTagsOffKeys(p, k); }
      assert b == Bucket(p, k);
      if !Known(f.kind) {
        assert Bucket(p + [f], k) == [] + b + [];
      } else {
        var m := m0[f.start := BucketOf(m0, f.start) + [Open(f.kind)]];
        var c: seq<Tag> := if f.end == k then [Close(f.kind)] else [];
        var o: seq<Tag> := if f.start == k then [Open(f.kind)] else [];
        assert BucketOf(m, k) == b + o;
        assert m1[k] == c + BucketOf(m, k);
      }
    }
  }

  /** The `markers` loop (post_archiver.py:100-108): an opening tag is appended
      to the bucket of its span's start, a closing tag inserted at the front
      of the bucket of its end. */
  method BuildMarkers(fs: seq<FormatSpan>) returns (m: map<nat, seq<Tag>>)
    ensures m == MarkerMap(fs)
  {
    m := map[];
    var i := 0;
    while i < |fs|
      invariant 0 <= i <= |fs|
      invariant MarkersFor(m, fs[..i])
    {
      var f := fs[i];
      ghost var m0 := m;
      if Known(f.kind) {
        m := m[f.start := BucketOf(m, f.start) + [Open(f.kind)]];
        m := m[f.end := [Close(f.kind)] + BucketOf(m, f.end)];
      }
      MarkersStep(m0, m, fs[..i], f);
      assert fs[..i + 1] == fs[..i] + [f];
      i := i + 1;
    }
    assert fs[..i] == fs;
  }

  // ---------------------------------------------------------------------
  // Cutting the text at the marker offsets

  /** Python's `s[a:b]` for non-negative bounds (clamped to the length). */
  function Slice(s: string, a: nat, b: nat): (r: string)
    ensures a <= b <= |s| ==> r == s[a..b]
  {
    var lo := if a < |s| then a else |s|;
    var hi := if b < |s| then b else |s|;
    if lo <= hi then s[lo..hi] else ""
  }

  lemma SliceJoin(s: string, a: nat, b: nat, c: nat)
    requires a <= b <= c
    ensures Slice(s, a, b) + Slice(s, b, c) == Slice(s, a, c)
  {
    var n := |s|;
    var a', b', c' := if a < n then a else n, if b < n then b else n, if c < n then c else n;
    assert s[a'..b'] + s[b'..c'] == s[a'..c'];
  }

  /** The least element of a non-empty set of offsets. */
  ghost function SetMin(s: set<nat>): (k: nat)
    requires s != {}
    ensures k in s && forall j :: j in s ==> k <= j
    decreases |s|
  {
    var x :| x in s;
    if s == {x} then x
    else
      var r := SetMin(s - {x});
      assert forall j :: j in s ==> j == x || j in s - {x};
      if x < r then x else r
  }

  /** The pieces produced from offset `last` on, for the bucket offsets
      `keys` taken in ascending order. */
  ghost function Interleave(raw: string, m: map<nat, seq<Tag>>, keys: set<nat>, last: nat): seq<Piece>
    requires keys <= m.Keys
    decreases |keys|
  {
    if keys == {} then [TextPiece(Slice(raw, last, |raw|))]
    else
      var k := SetMin(keys);
      [TextPiece(Slice(raw, last, k))] + TagPieces(m[k]) + Interleave(raw, m, keys - {k}, k)
  }

  lemma MinExists(keys: set<nat>)
    requires keys != {}
    ensures exists k :: k in keys && forall j :: j in keys ==> k <= j
  {
    var k := SetMin(keys);
    assert k in keys && forall j :: j in keys ==> k <= j;
  }

  /** One iteration of the `text_parts` loop: the text up to the least
      remaining offset and that offset's bucket move from the pieces still
      to be produced to the pieces produced. */
  lemma PiecesStep(raw: string, m: map<nat, seq<Tag>>, keys: set<nat>, last: nat, k: nat,
                   ps: seq<Piece>, whole: seq<Piece>)
    requires keys <= m.Keys && k in keys && forall j :: j in keys ==> k <= j
    requires ps + Interleave(raw, m, keys, last) == whole
    ensures ps + [TextPiece(Slice(raw, last, k))] + TagPieces(m[k]) + Interleave(raw, m, keys - {k}, k) == whole
  {
    var k0 := SetMin(keys);
    assert k0 == k;
    var front := [TextPiece(Slice(raw, last, k))] + TagPieces(m[k]);
    var rest := Interleave(raw, m, keys - {k}, k);
    InterleaveUnfold(raw, m, keys, last);
    AppendAssoc(ps, front, rest);
  }

  /** The `text_parts` loop (post_archiver.py:110-115). */
  method RenderPieces(raw: string, m: map<nat, seq<Tag>>) returns (ps: seq<Piece>)
    ensures ps == Interleave(raw, m, m.Keys, 0)
  {
    ps := [];
    var last: nat := 0;
    var remaining := m.Keys;
    while remaining != {}
      invariant remaining <= m.Keys
      invariant ps + Interleave(raw, m, remaining, last) == Interleave(raw, m, m.Keys, 0)
      decreases |remaining|
    {
      MinExists(remaining);
      var k :| k in remaining && forall j :: j in remaining ==> k <= j;
      PiecesStep(raw, m, remaining, last, k, ps, Interleave(raw, m, m.Keys, 0));
      ps := ps + [TextPiece(Slice(raw, last, k))] + TagPieces(m[k]);
      last := k;
      remaining := remaining - {k};
    }
    ps := ps + [TextPiece(Slice(raw, last, |raw|))];
  }

  /** A position inside `rest` shifted past `front`. */
  lemma ShiftPast(front: seq<Piece>, rest: seq<Piece>, n': nat, len: nat)
    requires n' + len <= |rest|
    ensures (front + rest)[|front| + n'..|front| + n' + len] == rest[n'..n' + len]
  {
  }

  /** The text before a position inside `rest` shifted past `front`. */
  lemma TextBeforeShift(front: seq<Piece>, rest: seq<Piece>, n': nat)
    requires n' <= |rest|
    ensures TextOf((front + rest)[..|front| + n']) == TextOf(front) + TextOf(rest[..n'])
  {
    assert (front + rest)[..|front| + n'] == front + rest[..n'];
    TextOfAppend(front, rest[..n']);
  }

  /** A bucket found at position `n'` of `rest`, with text `t` before it,
      is found past `front` with the text of `front` added before it. */
  lemma ShiftedBucket(front: seq<Piece>, rest: seq<Piece>, n': nat, ts: seq<Tag>, t: string)
    requires n' + |ts| <= |rest|
    requires rest[n'..n' + |ts|] == TagPieces(ts) && TextOf(rest[..n']) == t
    ensures |front| + n' + |ts| <= |front + rest|
    ensures (front + rest)[|front| + n'..|front| + n' + |ts|] == TagPieces(ts)
    ensures TextOf((front + rest)[..|front| + n']) == TextOf(front) + t
  {
    ShiftPast(front, rest, n', |ts|);
    TextBeforeShift(front, rest, n');
  }

  /** The text of the leading text piece followed by a bucket's tags. */
  lemma HeadText(t: string, ts: seq<Tag>)
    ensures TextOf([TextPiece(t)] + TagPieces(ts)) == t
  {
    var head := [TextPiece(t)];
    TextOfAppend(head, TagPieces(ts));
    TextOfTags(ts);
    assert TextOf(head) == TextOf(head[..0]) + head[0].text;
  }

  /** The first bucket's tags follow the first text piece. */
  lemma FirstBucket(t: string, ts: seq<Tag>, rest: seq<Piece>)
    ensures ([TextPiece(t)] + TagPieces(ts) + rest)[1..1 + |ts|] == TagPieces(ts)
    ensures TextOf(([TextPiece(t)] + TagPieces(ts) + rest)[..1]) == t
  {
    var ps := [TextPiece(t)] + TagPieces(ts) + rest;
    assert ps[..1] == [TextPiece(t)];
    assert TextOf(ps[..1]) == TextOf(ps[..1][..0]) + t;
  }

  /** Every character of the text is emitted exactly once and in order:
      the text pieces, tags removed, are the escaped text. */
  lemma {:induction false} InterleaveText(raw: string, m: map<nat, seq<Tag>>, keys: set<nat>, last: nat)
    requires keys <= m.Keys
    requires forall k :: k in keys ==> last <= k
    ensures TextOf(Interleave(raw, m, keys, last)) == Slice(raw, last, |raw|)
    decreases |keys|
  {
    var e := [TextPiece(Slice(raw, last, |raw|))];
    if keys == {} {
      assert TextOf(e) == TextOf(e[..0]) + e[0].text;
    } else {
      var k: nat := SetMin(keys);
      var front := [TextPiece(Slice(raw, last, k))] + TagPieces(m[k]);
      var rest := Interleave(raw, m, keys - {k}, k);
      assert Interleave(raw, m, keys, last) == front + rest;
      InterleaveText(raw, m, keys - {k}, k);
      TextOfAppend(front, rest);
      HeadText(Slice(raw, last, k), m[k]);
      if k <= |raw| {
        SliceJoin(raw, last, k, |raw|);
      } else {
        assert Slice(raw, k, |raw|) == "";
        assert Slice(raw, last, k) == Slice(raw, last, |raw|);
      }
    }
  }

  /** The tags of the bucket at offset `k` are emitted together, at position
      `n`, right after the escaped text up to offset `k`. */
  lemma {:induction false} InterleaveTagsAtOffset(raw: string, m: map<nat, seq<Tag>>, keys: set<nat>, last: nat, k: nat)
      returns (n: nat)
    requires keys <= m.Keys && k in keys
    requires forall j :: j in keys ==> last <= j
    ensures n + |m[k]| <= |Interleave(raw, m, keys, last)|
    ensures Interleave(raw, m, keys, last)[n..n + |m[k]|] == TagPieces(m[k])
    ensures TextOf(Interleave(raw, m, keys, last)[..n]) == Slice(raw, last, k)
    decreases |keys|
  {
    var k0 := SetMin(keys);
    if k == k0 {
      n := 1;
      FirstBucket(Slice(raw, last, k0), m[k0], Interleave(raw, m, keys - {k0}, k0));
    } else {
      var n' := InterleaveTagsAtOffset(raw, m, keys - {k0}, k0, k);
      InterleaveUnfold(raw, m, keys, last);
      n := LaterBucket(Slice(raw, last, k0), m[k0], Interleave(raw, m, keys - {k0}, k0), n', m[k], Slice(raw, k0, k));
      SliceJoin(raw, last, k0, k);
    }
  }

  /** The step of `InterleaveTagsAtOffset` for a bucket after the first:
      a bucket found in `rest` is found past the first text piece and the
      first bucket, with the first text piece added before it. */
  lemma LaterBucket(text: string, first: seq<Tag>, rest: seq<Piece>, n': nat, ts: seq<Tag>, t: string)
      returns (n: nat)
    requires n' + |ts| <= |rest|
    requires rest[n'..n' + |ts|] == TagPieces(ts) && TextOf(rest[..n']) == t
    ensures var all := [TextPiece(text)] + TagPieces(first) + rest;
            n + |ts| <= |all| && all[n..n + |ts|] == TagPieces(ts) && TextOf(all[..n]) == text + t
  {
    var front := [TextPiece(text)] + TagPieces(first);
    n := |front| + n';
    ShiftedBucket(front, rest, n', ts, t);
    HeadText(text, first);
  }

  lemma InterleaveUnfold(raw: string, m: map<nat, seq<Tag>>, keys: set<nat>, last: nat)
    requires keys <= m.Keys && keys != {}
    ensures Interleave(raw, m, keys, last) ==
              ([TextPiece(Slice(raw, last, SetMin(keys)))] + TagPieces(m[SetMin(keys)]))
              + Interleave(raw, m, keys - {SetMin(keys)}, SetMin(keys))
  {
  }

  // ---------------------------------------------------------------------
  // A whole text run

  /** The pieces of a text run with its formatting spans. */
  ghost function InlinePieces(raw: string, fs: seq<FormatSpan>): seq<Piece> {
    Interleave(raw, MarkerMap(fs), MarkerKeys(fs), 0)
  }

  /** The rendered text run: pieces joined, then the arrows substituted. */
  ghost function InlineHtml(raw: string, fs: seq<FormatSpan>): string {
    ArrowSubst(PiecesHtml(InlinePieces(raw, fs)))
  }

  /** Every character of the text is emitted exactly once and in order,
      whatever the span offsets: the text pieces, tags removed, are the raw
      text, and their markup is the escaped text (post_archiver.py:110-115). */
  lemma InlineTextIsEscapedText(raw: string, fs: seq<FormatSpan>)
    ensures TextOf(InlinePieces(raw, fs)) == raw
    ensures EscapedTextOf(InlinePieces(raw, fs)) == Escape(raw, false)
  {
    InterleaveText(raw, MarkerMap(fs), MarkerKeys(fs), 0);
    assert Slice(raw, 0, |raw|) == raw;
    EscapedTextIsEscapedText(InlinePieces(raw, fs));
  }

  /** Each offset's bucket of tags stands, as one block, right after the
      text before that offset. */
  lemma InlineTagsAtOffsets(raw: string, fs: seq<FormatSpan>, k: nat) returns (n: nat)
    requires k in MarkerKeys(fs)
    ensures n + |Bucket(fs, k)| <= |InlinePieces(raw, fs)|
    ensures InlinePieces(raw, fs)[n..n + |Bucket(fs, k)|] == TagPieces(Bucket(fs, k))
    ensures TextOf(InlinePieces(raw, fs)[..n]) == Slice(raw, 0, k)
  {
    n := InterleaveTagsAtOffset(raw, MarkerMap(fs), MarkerKeys(fs), 0, k);
  }

  /** Renders one text run (post_archiver.py:99-119). */
  method RenderRun(raw: string, fs: seq<FormatSpan>) returns (text: string)
    ensures text == InlineHtml(raw, fs)
    ensures !Occurs(text, "&lt;-") && !Occurs(text, "-&gt;")
  {
    var m := BuildMarkers(fs);
    assert m.Keys == MarkerKeys(fs);
    var ps := RenderPieces(raw, m);
    assert ps == InlinePieces(raw, fs);
    var joined := PiecesHtml(ps);
    text := ArrowSubst(joined);
    NoArrowsAfterSubst(joined);
  }
}
