/** Text primitives the renderer relies on: HTML escaping (Python's
    `html.escape`), the Tumblr-style arrow substitution (`str.replace`),
    whitespace trimming (`str.strip`, `str.rstrip`) and decimal number text. */
module HtmlText {
  import opened Util

  // ---------------------------------------------------------------------
  // Escaping

  /** The replacement `html.escape` uses for one character. */
  function EscapeChar(c: char, quote: bool): string {
    if c == '&' then "&amp;"
    else if c == '<' then "&lt;"
    else if c == '>' then "&gt;"
    else if quote && c == '"' then "&quot;"
    else if quote && c == '\'' then "&#x27;"
    else [c]
  }

  /** `html.escape(s, quote=quote)`: no markup character survives, and with
      `quote` neither does a quotation mark. */
  function Escape(s: string, quote: bool): (r: string)
    ensures forall i :: 0 <= i < |r| ==> r[i] != '<' && r[i] != '>'
    ensures quote ==> forall i :: 0 <= i < |r| ==> r[i] != '"' && r[i] != '\''
    ensures |r| >= |s|
    decreases |s|
  {
    if s == [] then "" else EscapeChar(s[0], quote) + Escape(s[1..], quote)
  }

  lemma {:induction false} EscapeAppend(a: string, b: string, quote: bool)
    ensures Escape(a + b, quote) == Escape(a, quote) + Escape(b, quote)
    decreases |a|
  {
    if a != [] {
      assert (a + b)[0] == a[0];
      assert (a + b)[1..] == a[1..] + b;
      EscapeAppend(a[1..], b, quote);
      calc {
        Escape(a + b, quote);
        EscapeChar(a[0], quote) + Escape(a[1..] + b, quote);
        EscapeChar(a[0], quote) + (Escape(a[1..], quote) + Escape(b, quote));
        (EscapeChar(a[0], quote) + Escape(a[1..], quote)) + Escape(b, quote);
        Escape(a, quote) + Escape(b, quote);
      }
    } else {
      assert a + b == b;
    }
  }

  /** Decoding of the five entities `Escape` produces (the inverse of `Escape`). */
  function Unescape(s: string): string
    decreases |s|
  {
    if s == [] then ""
    else if StartsWith(s, "&amp;") then "&" + Unescape(s[5..])
    else if StartsWith(s, "&lt;") then "<" + Unescape(s[4..])
    else if StartsWith(s, "&gt;") then ">" + Unescape(s[4..])
    else if StartsWith(s, "&quot;") then "\"" + Unescape(s[6..])
    else if StartsWith(s, "&#x27;") then "'" + Unescape(s[6..])
    else [s[0]] + Unescape(s[1..])
  }

  lemma Mismatch(e: string, p: string, k: nat)
    requires k < |p| && k < |e| && e[k] != p[k]
    ensures !StartsWith(e, p)
  {
  }

  lemma UnescapeStep(c: char, quote: bool, t: string)
    ensures Unescape(EscapeChar(c, quote) + t) == [c] + Unescape(t)
  {
    var e := EscapeChar(c, quote) + t;
    if c == '&' {
      assert e[..5] == "&amp;" && e[5..] == t;
    } else if c == '<' {
      Mismatch(e, "&amp;", 1);
      assert e[..4] == "&lt;" && e[4..] == t;
    } else if c == '>' {
      Mismatch(e, "&amp;", 1);
      Mismatch(e, "&lt;", 1);
      assert e[..4] == "&gt;" && e[4..] == t;
    } else if quote && c == '"' {
      Mismatch(e, "&amp;", 1);
      Mismatch(e, "&lt;", 1);
      Mismatch(e, "&gt;", 1);
      assert e[..6] == "&quot;" && e[6..] == t;
    } else if quote && c == '\'' {
      Mismatch(e, "&amp;", 1);
      Mismatch(e, "&lt;", 1);
      Mismatch(e, "&gt;", 1);
      Mismatch(e, "&quot;", 1);
      assert e[..6] == "&#x27;" && e[6..] == t;
    } else {
      assert e[0] == c && e[1..] == t;
      if e[0] == '&' { assert false; }
      Mismatch(e, "&amp;", 0);
      Mismatch(e, "&lt;", 0);
      Mismatch(e, "&gt;", 0);
      Mismatch(e, "&quot;", 0);
      Mismatch(e, "&#x27;", 0);
    }
  }

  /** Escaping loses nothing: decoding the entities gives the text back. */
  lemma {:induction false} UnescapeEscape(s: string, quote: bool)
    ensures Unescape(Escape(s, quote)) == s
    decreases |s|
  {
    if s != [] {
      UnescapeStep(s[0], quote, Escape(s[1..], quote));
      UnescapeEscape(s[1..], quote);
    }
  }

  // ---------------------------------------------------------------------
  // Substring search and replacement

  predicate StartsWith(s: string, p: string) {
    |p| <= |s| && s[..|p|] == p
  }

  /** `p in s` for strings. */
  predicate Occurs(s: string, p: string) {
    exists i :: 0 <= i <= |s| && StartsWith(s[i..], p)
  }

  /** `s.replace(p, [g])`: occurrences of `p` are replaced left to right,
      without overlap, by the single character `g`. */
  function ReplaceAll(s: string, p: string, g: char): string
    requires |p| > 0
    decreases |s|
  {
    if s == [] then ""
    else if StartsWith(s, p) then [g] + ReplaceAll(s[|p|..], p, g)
    else [s[0]] + ReplaceAll(s[1..], p, g)
  }

  /** Text that starts with the pattern is replaced starting with `g`. */
  lemma ReplacedHead(t: string, p: string, g: char)
    requires |p| > 0 && StartsWith(t, p)
    ensures t != [] && ReplaceAll(t, p, g)[0] == g
  {
  }

  /** A prefix of the replaced text that does not contain the replacement
      character was already a prefix of the original text. */
  lemma {:induction false} ReplacedPrefix(t: string, p: string, g: char, q: string)
    requires |p| > 0 && g !in q
    requires StartsWith(ReplaceAll(t, p, g), q)
    ensures StartsWith(t, q)
    decreases |t|
  {
    if q != [] {
      var r := ReplaceAll(t, p, g);
      if t == [] {
        assert false;
      } else if StartsWith(t, p) {
        ReplacedHead(t, p, g);
        assert false;
      } else {
        var r' := ReplaceAll(t[1..], p, g);
        assert r == [t[0]] + r';
        assert q[0] == t[0];
        assert r'[..|q| - 1] == r[1..|q|] == q[1..];
        assert g !in q[1..];
        ReplacedPrefix(t[1..], p, g, q[1..]);
        assert t[..|q|] == [t[0]] + t[1..][..|q| - 1];
      }
    }
  }

  /** Replacing by a character foreign to `q` creates no new occurrence of `q`. */
  lemma {:induction false} ReplaceCreatesNothing(t: string, p: string, g: char, q: string)
    requires |p| > 0 && g !in q
    requires Occurs(ReplaceAll(t, p, g), q)
    ensures Occurs(t, q)
    decreases |t|
  {
    var r := ReplaceAll(t, p, g);
    var i :| 0 <= i <= |r| && StartsWith(r[i..], q);
    if i == 0 {
      assert r[0..] == r;
      ReplacedPrefix(t, p, g, q);
      assert t[0..] == t;
    } else if StartsWith(t, p) {
      var u := t[|p|..];
      assert r == [g] + ReplaceAll(u, p, g);
      assert ReplaceAll(u, p, g)[i - 1..] == r[i..];
      ReplaceCreatesNothing(u, p, g, q);
      var j :| 0 <= j <= |u| && StartsWith(u[j..], q);
      assert t[|p| + j..] == u[j..];
    } else {
      var u := t[1..];
      assert r == [t[0]] + ReplaceAll(u, p, g);
      assert ReplaceAll(u, p, g)[i - 1..] == r[i..];
      ReplaceCreatesNothing(u, p, g, q);
      var j :| 0 <= j <= |u| && StartsWith(u[j..], q);
      assert t[1 + j..] == u[j..];
    }
  }

  /** After `ReplaceAll`, no occurrence of the pattern is left. */
  lemma {:induction false} ReplaceRemovesAll(t: string, p: string, g: char)
    requires |p| > 0 && g !in p
    ensures !Occurs(ReplaceAll(t, p, g), p)
    decreases |t|
  {
    var r := ReplaceAll(t, p, g);
    if t == [] {
      assert forall i :: 0 <= i <= |r| ==> r[i..] == "";
    } else {
      var u := if StartsWith(t, p) then t[|p|..] else t[1..];
      var r' := ReplaceAll(u, p, g);
      assert r[1..] == r';
      ReplaceRemovesAll(u, p, g);
      forall i | 0 <= i <= |r| ensures !StartsWith(r[i..], p) {
        if i == 0 {
          assert r[0..] == r;
          if StartsWith(t, p) {
            ReplacedHead(t, p, g);
            assert p[0] in p;
          } else if StartsWith(r, p) {
            ReplacedPrefix(t, p, g, p);
          }
        } else {
          assert r[i..] == r'[i - 1..];
        }
      }
    }
  }

  /** Text that does not contain the pattern is left unchanged. */
  lemma {:induction false} ReplaceWithoutMatch(t: string, p: string, g: char)
    requires |p| > 0 && !Occurs(t, p)
    ensures ReplaceAll(t, p, g) == t
    decreases |t|
  {
    if t != [] {
      assert t[0..] == t;
      assert !Occurs(t[1..], p) by {
        forall i | 0 <= i <= |t[1..]| ensures !StartsWith(t[1..][i..], p) {
          assert t[1..][i..] == t[1 + i..];
        }
      }
      ReplaceWithoutMatch(t[1..], p, g);
    }
  }

  const LeftArrow: char := '\U{1F850}'
  const RightArrow: char := '\U{1F852}'

  /** `.replace("&lt;-", "\U0001F850").replace("-&gt;", "\U0001F852")`. */
  function ArrowSubst(s: string): string {
    ReplaceAll(ReplaceAll(s, "&lt;-", LeftArrow), "-&gt;", RightArrow)
  }

  /** No escaped arrow survives the substitution. */
  lemma NoArrowsAfterSubst(s: string)
    ensures !Occurs(ArrowSubst(s), "&lt;-") && !Occurs(ArrowSubst(s), "-&gt;")
  {
    var t := ReplaceAll(s, "&lt;-", LeftArrow);
    ReplaceRemovesAll(s, "&lt;-", LeftArrow);
    ReplaceRemovesAll(t, "-&gt;", RightArrow);
    if Occurs(ArrowSubst(s), "&lt;-") {
      ReplaceCreatesNothing(t, "-&gt;", RightArrow, "&lt;-");
    }
  }

  /** Text without escaped arrows is not changed by the substitution. */
  lemma ArrowSubstWithoutArrows(s: string)
    requires !Occurs(s, "&lt;-") && !Occurs(s, "-&gt;")
    ensures ArrowSubst(s) == s
  {
    ReplaceWithoutMatch(s, "&lt;-", LeftArrow);
    ReplaceWithoutMatch(s, "-&gt;", RightArrow);
  }

  // ---------------------------------------------------------------------
  // Trimming

  /** The characters Python's `str.isspace` accepts (and `str.strip` removes). */
  const Whitespace: set<char> :=
    {' ', '\t', '\n', '\r', '\U{0B}', '\U{0C}', '\U{1C}', '\U{1D}', '\U{1E}', '\U{1F}',
     '\U{85}', '\U{A0}', '\U{1680}', '\U{2000}', '\U{2001}', '\U{2002}', '\U{2003}',
     '\U{2004}', '\U{2005}', '\U{2006}', '\U{2007}', '\U{2008}', '\U{2009}', '\U{200A}',
     '\U{2028}', '\U{2029}', '\U{202F}', '\U{205F}', '\U{3000}'}

  /** `s.rstrip(cs)`: the longest prefix of `s` not ending in a character of `cs`. */
  function TrimEnd(s: string, cs: set<char>): (r: string)
    ensures r <= s
    ensures r == [] || r[|r| - 1] !in cs
    ensures forall i :: |r| <= i < |s| ==> s[i] in cs
    decreases |s|
  {
    if s != [] && s[|s| - 1] in cs then TrimEnd(s[..|s| - 1], cs) else s
  }

  /** `s.lstrip(cs)`: the longest suffix of `s` not starting with a character of `cs`. */
  function TrimStart(s: string, cs: set<char>): (r: string)
    ensures |r| <= |s| && r == s[|s| - |r|..]
    ensures r == [] || r[0] !in cs
    ensures forall i :: 0 <= i < |s| - |r| ==> s[i] in cs
    decreases |s|
  {
    if s != [] && s[0] in cs then TrimStart(s[1..], cs) else s
  }

  /** `s.strip()`. */
  function Strip(s: string): string {
    TrimStart(TrimEnd(s, Whitespace), Whitespace)
  }

  /** `s.rstrip('\n')`. */
  function TrimNewlines(s: string): string {
    TrimEnd(s, {'\n'})
  }

  /** A string strips to nothing exactly when it is all whitespace. */
  lemma StripEmptyIff(s: string)
    ensures Strip(s) == "" <==> forall i :: 0 <= i < |s| ==> s[i] in Whitespace
  {
    var e := TrimEnd(s, Whitespace);
    if Strip(s) == "" {
      forall i | 0 <= i < |s| ensures s[i] in Whitespace {
        if i < |e| { assert e[i] == s[i]; }
      }
    }
  }

  /** Stripping twice strips nothing more: the first strip leaves neither
      leading nor trailing whitespace. */
  lemma StripIdempotent(s: string)
    ensures Strip(Strip(s)) == Strip(s)
  {
    var e := TrimEnd(s, Whitespace);
    var t := TrimStart(e, Whitespace);
    if t != [] {
      assert t[|t| - 1] == e[|e| - 1];
    }
    TrimEndKeeps(t, Whitespace);
    TrimStartKeeps(t, Whitespace);
  }

  lemma TrimEndKeeps(t: string, cs: set<char>)
    requires t == [] || t[|t| - 1] !in cs
    ensures TrimEnd(t, cs) == t
  {
  }

  lemma TrimStartKeeps(t: string, cs: set<char>)
    requires t == [] || t[0] !in cs
    ensures TrimStart(t, cs) == t
  {
  }

  // ---------------------------------------------------------------------
  // Numbers as text

  /** The decimal digit character for `d`. */
  function DigitChar(d: nat): (c: char)
    requires d < 10
    ensures '0' <= c <= '9'
  {
    (('0' as int) + d) as char
  }

  /** Decimal digits of `n` (`str(n)`, and `f"{n:.0f}"` for a whole number). */
  function NatToString(n: nat): (r: string)
    ensures |r| >= 1 && (|r| > 1 ==> r[0] != '0')
    ensures forall i :: 0 <= i < |r| ==> '0' <= r[i] <= '9'
    decreases n
  {
    if n < 10 then [DigitChar(n)] else NatToString(n / 10) + [DigitChar(n % 10)]
  }

  /** The value of a string of decimal digits. */
  function DecimalValue(s: string): nat
    requires forall i :: 0 <= i < |s| ==> '0' <= s[i] <= '9'
    decreases |s|
  {
    if s == [] then 0
    else 10 * DecimalValue(s[..|s| - 1]) + ((s[|s| - 1] as int) - ('0' as int))
  }

  /** Reading the decimal text of a number gives the number back. */
  lemma {:induction false} DecimalRoundTrip(n: nat)
    ensures DecimalValue(NatToString(n)) == n
    decreases n
  {
    var s := NatToString(n);
    if n >= 10 {
      DecimalRoundTrip(n / 10);
      assert s[..|s| - 1] == NatToString(n / 10);
    }
  }

  /** `f"{n:,}"`: decimal digits grouped by three with commas. */
  function WithThousands(n: nat): string
    decreases n
  {
    if n < 1000 then NatToString(n)
    else WithThousands(n / 1000) + "," + ThreeDigits(n % 1000)
  }

  /** `b` written with exactly three digits (leading zeros kept). */
  function ThreeDigits(b: nat): string
    requires b < 1000
  {
    [DigitChar(b / 100), DigitChar(b % 100 / 10), DigitChar(b % 10)]
  }

  /** The text without its commas. */
  function DropCommas(s: string): string
    decreases |s|
  {
    if s == [] then "" else (if s[0] == ',' then "" else [s[0]]) + DropCommas(s[1..])
  }

  lemma {:induction false} DropCommasAppend(a: string, b: string)
    ensures DropCommas(a + b) == DropCommas(a) + DropCommas(b)
    decreases |a|
  {
    if a != [] {
      assert (a + b)[0] == a[0] && (a + b)[1..] == a[1..] + b;
      DropCommasAppend(a[1..], b);
      calc {
        DropCommas(a + b);
        (if a[0] == ',' then "" else [a[0]]) + DropCommas(a[1..] + b);
        (if a[0] == ',' then "" else [a[0]]) + (DropCommas(a[1..]) + DropCommas(b));
        ((if a[0] == ',' then "" else [a[0]]) + DropCommas(a[1..])) + DropCommas(b);
        DropCommas(a) + DropCommas(b);
      }
    } else {
      assert a + b == b;
    }
  }

  lemma {:induction false} DropCommasDigits(s: string)
    requires forall i :: 0 <= i < |s| ==> '0' <= s[i] <= '9'
    ensures DropCommas(s) == s
    decreases |s|
  {
    if s != [] { DropCommasDigits(s[1..]); }
  }

  lemma OneMoreDigit(a: nat, d: nat)
    requires a >= 1 && d < 10
    ensures NatToString(10 * a + d) == NatToString(a) + [DigitChar(d)]
  {
    var n := 10 * a + d;
    assert n / 10 == a && n % 10 == d;
  }

  /** Appending three digits to the decimal text of a positive number. */
  lemma ThreeMoreDigits(a: nat, b: nat)
    requires a >= 1 && b < 1000
    ensures NatToString(1000 * a + b) == NatToString(a) + ThreeDigits(b)
  {
    var x := 10 * a + b / 100;
    var y := 10 * x + b % 100 / 10;
    assert 1000 * a + b == 10 * y + b % 10;
    OneMoreDigit(a, b / 100);
    OneMoreDigit(x, b % 100 / 10);
    OneMoreDigit(y, b % 10);
    var s := NatToString(a);
    assert s + [DigitChar(b / 100)] + [DigitChar(b % 100 / 10)] + [DigitChar(b % 10)] == s + ThreeDigits(b);
  }

  /** The grouped text is the plain decimal text with commas inserted. */
  lemma {:induction false} ThousandsAreDigits(n: nat)
    ensures DropCommas(WithThousands(n)) == NatToString(n)
    decreases n
  {
    if n < 1000 {
      DropCommasDigits(NatToString(n));
    } else {
      var a, b := n / 1000, n % 1000;
      var tail := ThreeDigits(b);
      assert WithThousands(n) == WithThousands(a) + ("," + tail);
      ThousandsAreDigits(a);
      DropCommasAppend(WithThousands(a), "," + tail);
      DropCommasAppend(",", tail);
      DropCommasDigits(tail);
      assert DropCommas(",") == "";
      ThreeMoreDigits(a, b);
      assert n == 1000 * a + b;
    }
  }
}
