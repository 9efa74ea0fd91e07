/** The Content-Disposition value that `add_header("Content-Disposition",
    "attachment", filename=...)` builds for a rewritten part, and the quoting
    that lets `get_filename()` read the file name back.

    `add_header` joins the main value and its formatted parameters with "; ".
    A parameter value that is pure ASCII is written as a quoted string, its
    backslashes and double quotes escaped (`email.utils.quote`); any other value
    is written in the RFC 2231 form `filename*=utf-8''<percent-encoded UTF-8>`,
    whose percent-encoding is a library call and stays a parameter here. */
module MimeParams {

  /** Python's `s.replace(pat, rep)`: every non-overlapping occurrence of `pat`,
      scanning left to right, is replaced by `rep`. */
  function ReplaceAll(s: string, pat: string, rep: string): string
    requires |pat| > 0
    decreases |s|
  {
    if |s| < |pat| then s
    else if s[..|pat|] == pat then rep + ReplaceAll(s[|pat|..], pat, rep)
    else [s[0]] + ReplaceAll(s[1..], pat, rep)
  }

  /** `email.utils.quote`: escape backslashes, then double quotes. */
  function Quote(s: string): string {
    ReplaceAll(ReplaceAll(s, "\\", "\\\\"), "\"", "\\\"")
  }

  /** `email.utils.unquote`: strip one pair of surrounding double quotes and
      undo the escapes (two replacements, in this order), or strip a pair of
      angle brackets; anything else is returned as it is. */
  function Unquote(s: string): string {
    if |s| > 1 && s[0] == '"' && s[|s| - 1] == '"' then
      ReplaceAll(ReplaceAll(s[1..|s| - 1], "\\\\", "\\"), "\\\"", "\"")
    else if |s| > 1 && s[0] == '<' && s[|s| - 1] == '>' then
      s[1..|s| - 1]
    else
      s
  }

  /** `value.encode('ascii')` succeeds. */
  predicate IsAscii(s: string) {
    forall i :: 0 <= i < |s| ==> s[i] < 128 as char
  }

  /** `'"%s"' % quote(s)` */
  function QuotedString(s: string): string {
    "\"" + Quote(s) + "\""
  }

  /** `_formatparam("filename", f)`: a bare `filename` for the empty name,
      otherwise always quoted; a non-ASCII name in the RFC 2231 form. */
  function FilenameParam(percentEncode: string -> string, f: string): string {
    if f == "" then "filename"
    else if IsAscii(f) then "filename=" + QuotedString(f)
    else "filename*=" + ("utf-8''" + percentEncode(f))
  }

  /** The value of the Content-Disposition header of a rewritten part. */
  function AttachmentDisposition(percentEncode: string -> string, f: string): (d: string)
    ensures "attachment" <= d
  {
    "attachment; " + FilenameParam(percentEncode, f)
  }

  // ---- header values that hold a line break ----

  /** A line boundary of Python's `str.splitlines()`. */
  predicate IsLineBoundary(c: char) {
    || c == '\n' || c == '\r' || c == '\U{0B}' || c == '\U{0C}'
    || c == '\U{1C}' || c == '\U{1D}' || c == '\U{1E}'
    || c == '\U{85}' || c == '\U{2028}' || c == '\U{2029}'
  }

  /** Where the line ending at `v[i]` stops: `\r\n` is one ending. */
  function LineEndAfter(v: string, i: nat): nat
    requires i < |v|
  {
    if v[i] == '\r' && i + 1 < |v| && v[i + 1] == '\n' then i + 2 else i + 1
  }

  /** `len(v.splitlines()) > 1`: some line ending is followed by more text.
      The email policy refuses such a header value with a ValueError. */
  predicate SplitsIntoLines(v: string) {
    exists i: nat :: i < |v| && IsLineBoundary(v[i]) && LineEndAfter(v, i) < |v|
  }

  /** `v` holds a line boundary somewhere. */
  predicate HasLineBoundary(v: string) {
    exists i :: 0 <= i < |v| && IsLineBoundary(v[i])
  }

  lemma HasLineBoundaryConcat(a: string, b: string)
    ensures HasLineBoundary(a + b) <==> HasLineBoundary(a) || HasLineBoundary(b)
  {
    if HasLineBoundary(a + b) {
      var i :| 0 <= i < |a + b| && IsLineBoundary((a + b)[i]);
      if i >= |a| {
        assert b[i - |a|] == (a + b)[i];
      }
    }
    if HasLineBoundary(a) {
      var i :| 0 <= i < |a| && IsLineBoundary(a[i]);
      assert (a + b)[i] == a[i];
    }
    if HasLineBoundary(b) {
      var i :| 0 <= i < |b| && IsLineBoundary(b[i]);
      assert (a + b)[|a| + i] == b[i];
    }
  }

  /** A value that does not end in a line boundary splits into several lines
      exactly when it holds a boundary at all. */
  lemma SplitsWhenPlainAtEnd(v: string)
    requires v != [] && !IsLineBoundary(v[|v| - 1])
    ensures SplitsIntoLines(v) <==> HasLineBoundary(v)
  {
    if HasLineBoundary(v) {
      var i :| 0 <= i < |v| && IsLineBoundary(v[i]);
      assert i < |v| - 1;
      assert LineEndAfter(v, i) < |v|;
    }
  }

  /** A character `urllib.parse.quote(s, safe='')` can write: an unreserved
      character of RFC 3986 section 2.3, or `%` of a percent-encoded octet. */
  predicate IsUrlSafe(c: char) {
    || ('A' <= c <= 'Z') || ('a' <= c <= 'z') || ('0' <= c <= '9')
    || c == '_' || c == '.' || c == '-' || c == '~' || c == '%'
  }

  /** The percent-encoding writes only URL-safe characters. */
  ghost predicate EncodesUrlSafe(percentEncode: string -> string) {
    forall s: string, i :: 0 <= i < |percentEncode(s)| ==> IsUrlSafe(percentEncode(s)[i])
  }

  /** With such an encoding, the RFC 2231 form of a non-ASCII name is always a
      single line. */
  lemma NonAsciiDispositionSingleLine(percentEncode: string -> string, f: string)
    requires EncodesUrlSafe(percentEncode) && !IsAscii(f)
    ensures !SplitsIntoLines(AttachmentDisposition(percentEncode, f))
  {
    var prefix := "attachment; filename*=utf-8''";
    NonAsciiDispositionLayout(percentEncode, f);
    PrintableHasNoLineBoundary(prefix);
    UrlSafeHasNoLineBoundary(percentEncode, f);
    HasLineBoundaryConcat(prefix, percentEncode(f));
    SplitsHasLineBoundary(prefix + percentEncode(f));
  }

  lemma NonAsciiDispositionLayout(percentEncode: string -> string, f: string)
    requires !IsAscii(f)
    ensures AttachmentDisposition(percentEncode, f) == "attachment; filename*=utf-8''" + percentEncode(f)
  {
  }

  lemma UrlSafeHasNoLineBoundary(percentEncode: string -> string, f: string)
    requires EncodesUrlSafe(percentEncode)
    ensures !HasLineBoundary(percentEncode(f))
  {
    var e := percentEncode(f);
    assert forall i :: 0 <= i < |e| ==> IsUrlSafe(e[i]);
  }

  /** A value of several lines holds a line boundary. */
  lemma SplitsHasLineBoundary(v: string)
    ensures SplitsIntoLines(v) ==> HasLineBoundary(v)
  {
  }

  /** Printable ASCII text holds no line boundary. */
  lemma PrintableHasNoLineBoundary(s: string)
    requires forall i :: 0 <= i < |s| ==> ' ' <= s[i] <= '~'
    ensures !HasLineBoundary(s)
  {
  }

  /** Quoting neither adds nor removes a line boundary. */
  lemma {:induction false} QuoteKeepsLineBoundaries(f: string)
    ensures HasLineBoundary(Quote(f)) <==> HasLineBoundary(f)
    decreases |f|
  {
    if f != [] {
      QuoteCons(f[0], f[1..]);
      assert f == [f[0]] + f[1..];
      QuoteKeepsLineBoundaries(f[1..]);
      HasLineBoundaryConcat(Escaped(f[0]), Quote(f[1..]));
      HasLineBoundaryConcat([f[0]], f[1..]);
      assert HasLineBoundary(Escaped(f[0])) <==> HasLineBoundary([f[0]]);
    }
  }

  /** For a non-empty ASCII file name, the new Content-Disposition value is
      refused (several lines) exactly when the name holds a line boundary. */
  lemma AsciiDispositionSplitsIff(percentEncode: string -> string, f: string)
    requires IsAscii(f) && f != ""
    ensures SplitsIntoLines(AttachmentDisposition(percentEncode, f)) <==> HasLineBoundary(f)
  {
    AsciiDispositionLayout(percentEncode, f);
    QuotedNameBoundaries(f);
  }

  /** The ASCII value as one piece of text around the escaped name. */
  lemma AsciiDispositionLayout(percentEncode: string -> string, f: string)
    requires IsAscii(f) && f != ""
    ensures AttachmentDisposition(percentEncode, f) == "attachment; filename=\"" + Quote(f) + "\""
  {
  }

  lemma QuotedNameBoundaries(f: string)
    ensures var d := "attachment; filename=\"" + Quote(f) + "\"";
      && (SplitsIntoLines(d) <==> HasLineBoundary(d))
      && (HasLineBoundary(d) <==> HasLineBoundary(f))
  {
    var prefix := "attachment; filename=\"";
    var d := prefix + Quote(f) + "\"";
    PrintableHasNoLineBoundary(prefix);
    PrintableHasNoLineBoundary("\"");
    BoundaryBetweenPlain(prefix, Quote(f), "\"");
    QuoteKeepsLineBoundaries(f);
    assert d[|d| - 1] == '"';
    SplitsWhenPlainAtEnd(d);
  }

  lemma BoundaryBetweenPlain(a: string, b: string, c: string)
    requires !HasLineBoundary(a) && !HasLineBoundary(c)
    ensures HasLineBoundary(a + b + c) <==> HasLineBoundary(b)
  {
    HasLineBoundaryConcat(a + b, c);
    HasLineBoundaryConcat(a, b);
  }

  // ---- proof of the round trip Unquote(quoted(Quote(f))) == f ----

  /** The escape `Quote` gives one character. */
  function Escaped(c: char): string {
    if c == '\\' then "\\\\" else if c == '"' then "\\\"" else [c]
  }

  /** What the first replacement of `Unquote` leaves of `Escaped(c)`. */
  function HalfUnescaped(c: char): string {
    if c == '"' then "\\\"" else [c]
  }

  function HalfUnescapedAll(s: string): (r: string)
    ensures r == [] || r[0] != '"'
  {
    if s == [] then [] else HalfUnescaped(s[0]) + HalfUnescapedAll(s[1..])
  }

  /** Replacing a one-character pattern works character by character. */
  lemma ReplaceOneCons(c: char, z: string, pat: string, rep: string)
    requires |pat| == 1
    ensures ReplaceAll([c] + z, pat, rep)
         == (if c == pat[0] then rep else [c]) + ReplaceAll(z, pat, rep)
  {
  }

  /** Replacing a two-character pattern, when the text cannot start with it. */
  lemma ReplaceTwoNoMatch(c: char, z: string, pat: string, rep: string)
    requires |pat| == 2 && (c != pat[0] || z == [] || z[0] != pat[1])
    ensures ReplaceAll([c] + z, pat, rep) == [c] + ReplaceAll(z, pat, rep)
  {
  }

  /** Replacing a two-character pattern at the front of the text. */
  lemma ReplaceTwoMatch(z: string, pat: string, rep: string)
    requires |pat| == 2
    ensures ReplaceAll(pat + z, pat, rep) == rep + ReplaceAll(z, pat, rep)
  {
  }

  lemma {:induction false} QuoteCons(c: char, s: string)
    ensures Quote([c] + s) == Escaped(c) + Quote(s)
  {
    var inner := ReplaceAll(s, "\\", "\\\\");
    ReplaceOneCons(c, s, "\\", "\\\\");
    if c == '\\' {
      assert ReplaceAll([c] + s, "\\", "\\\\") == "\\\\" + inner;
      assert "\\\\" + inner == ['\\'] + (['\\'] + inner);
      ReplaceOneCons('\\', ['\\'] + inner, "\"", "\\\"");
      ReplaceOneCons('\\', inner, "\"", "\\\"");
    } else {
      assert ReplaceAll([c] + s, "\\", "\\\\") == [c] + inner;
      ReplaceOneCons(c, inner, "\"", "\\\"");
    }
  }

  lemma FirstUnescapeStep(c: char, z: string)
    ensures ReplaceAll(Escaped(c) + z, "\\\\", "\\") == HalfUnescaped(c) + ReplaceAll(z, "\\\\", "\\")
  {
    if c == '\\' {
      ReplaceTwoMatch(z, "\\\\", "\\");
    } else if c == '"' {
      FirstUnescapeQuoteStep(z);
    } else {
      assert Escaped(c) + z == [c] + z;
      ReplaceTwoNoMatch(c, z, "\\\\", "\\");
    }
  }

  lemma FirstUnescapeQuoteStep(z: string)
    ensures ReplaceAll("\\\"" + z, "\\\\", "\\") == "\\\"" + ReplaceAll(z, "\\\\", "\\")
  {
    assert "\\\"" + z == ['\\'] + (['"'] + z);
    ReplaceTwoNoMatch('\\', ['"'] + z, "\\\\", "\\");
    ReplaceTwoNoMatch('"', z, "\\\\", "\\");
  }

  lemma {:induction false} FirstUnescape(s: string)
    ensures ReplaceAll(Quote(s), "\\\\", "\\") == HalfUnescapedAll(s)
    decreases |s|
  {
    if s == [] {
    } else {
      assert s == [s[0]] + s[1..];
      QuoteCons(s[0], s[1..]);
      FirstUnescapeStep(s[0], Quote(s[1..]));
      FirstUnescape(s[1..]);
    }
  }

  lemma {:induction false} SecondUnescape(s: string)
    ensures ReplaceAll(HalfUnescapedAll(s), "\\\"", "\"") == s
    decreases |s|
  {
    if s != [] {
      var c, w := s[0], HalfUnescapedAll(s[1..]);
      assert HalfUnescapedAll(s) == HalfUnescaped(c) + w;
      if c == '"' {
        ReplaceTwoMatch(w, "\\\"", "\"");
      } else {
        assert HalfUnescaped(c) + w == [c] + w;
        ReplaceTwoNoMatch(c, w, "\\\"", "\"");
      }
      SecondUnescape(s[1..]);
      assert s == [c] + s[1..];
    }
  }

  /** The quoted string written into the header reads back as the file name. */
  lemma UnquoteQuote(f: string)
    ensures Unquote(QuotedString(f)) == f
  {
    var q := QuotedString(f);
    assert q[1..|q| - 1] == Quote(f);
    FirstUnescape(f);
    SecondUnescape(f);
  }

  /** For an ASCII file name the header is `attachment; filename="..."`, and
      the quoted string in it unquotes back to that name. */
  lemma AttachmentFilenameReadsBack(percentEncode: string -> string, f: string)
    requires IsAscii(f)
    ensures f == "" ==> AttachmentDisposition(percentEncode, f) == "attachment; filename"
    ensures f != "" ==>
      AttachmentDisposition(percentEncode, f) == "attachment; " + ("filename=" + QuotedString(f))
    ensures Unquote(QuotedString(f)) == f
  {
    UnquoteQuote(f);
  }
}
