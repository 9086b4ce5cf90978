/**
 * The scanning primitives and atom sub-lexers shared by the tag lexers
 * (src/lex/common.rs), the tag-part span (src/lex/tag.rs) and the template
 * view (the `content` accessor of the template string).
 *
 * Text is a sequence of Unicode scalar values and every offset is an index
 * into it; for ASCII text this is the byte offset the lexers compute.
 */
module Common {
  import opened Wrappers
  import opened Lex

  /** A `(start, length)` pair locating a piece of the template. */
  datatype Span = Span(start: nat, len: nat) {
    function End(): nat { start + len }
  }

  /** The span of a tag's argument text, as the tag-part extractor finds it. */
  datatype TagParts = TagParts(at: Span)

  /** A lexer's position: the absolute offset `byte` of `rest`, the text not yet consumed. */
  datatype Cursor = Cursor(byte: nat, rest: seq<char>) {
    function End(): nat { byte + |rest| }
  }

  /** The triple an atom sub-lexer returns: the span it consumed, the new offset, the new rest. */
  datatype Lexed = Lexed(at: Span, byte: nat, rest: seq<char>)

  datatype LexerError =
    | IncompleteString(at: Span)
    | IncompleteTranslatedString(at: Span)
    | InvalidRemainder(at: Span)

  predicate ValidSpan(template: seq<char>, at: Span) {
    at.End() <= |template|
  }

  /** The text a span covers; a span outside the template is a caller bug. */
  function Content(template: seq<char>, at: Span): (s: seq<char>)
    requires ValidSpan(template, at)
    ensures |s| == at.len
    ensures forall i :: 0 <= i < at.len ==> s[i] == template[at.start + i]
  {
    template[at.start..at.End()]
  }

  /** Unicode White_Space, the class Rust's `char::is_whitespace` and `trim_start` use. */
  predicate IsWhitespace(ch: char) {
    var c := ch as int;
    c == 0x20 || 0x09 <= c <= 0x0D || c == 0x85 || c == 0xA0 || c == 0x1680
    || 0x2000 <= c <= 0x200A || c == 0x2028 || c == 0x2029 || c == 0x202F
    || c == 0x205F || c == 0x3000
  }

  /** Offset of the first whitespace character of `s`, or `|s|` if there is none. */
  function NextWhitespace(s: seq<char>): (n: nat)
    ensures n <= |s|
    ensures forall i :: 0 <= i < n ==> !IsWhitespace(s[i])
    ensures n < |s| ==> IsWhitespace(s[n])
  {
    if s == [] || IsWhitespace(s[0]) then 0 else 1 + NextWhitespace(s[1..])
  }

  /** Offset of the first non-whitespace character of `s`, or `|s|` if there is none. */
  function NextNonWhitespace(s: seq<char>): (n: nat)
    ensures n <= |s|
    ensures forall i :: 0 <= i < n ==> IsWhitespace(s[i])
    ensures n < |s| ==> !IsWhitespace(s[n])
  {
    if s == [] || !IsWhitespace(s[0]) then 0 else 1 + NextNonWhitespace(s[1..])
  }

  /** The first whitespace-delimited word of `s`. */
  function FirstWord(s: seq<char>): seq<char> {
    s[..NextWhitespace(s)]
  }

  /** `w` contains no whitespace. */
  predicate NoWhitespace(w: seq<char>) {
    forall i :: 0 <= i < |w| ==> !IsWhitespace(w[i])
  }

  /** A word without whitespace, then whitespace or the end: the word is the first word. */
  lemma {:induction false} WordThen(w: seq<char>, tail: seq<char>)
    requires NoWhitespace(w) && (tail == [] || IsWhitespace(tail[0]))
    ensures NextWhitespace(w + tail) == |w| && FirstWord(w + tail) == w
    decreases |w|
  {
    if w != [] {
      WordThen(w[1..], tail);
      assert (w + tail)[1..] == w[1..] + tail;
    }
  }

  /** `r` consumed a prefix of `rest`, starting at offset `byte`. */
  predicate Consumes(byte: nat, rest: seq<char>, r: Lexed) {
    && r.at.start == byte
    && r.at.len <= |rest|
    && r.byte == byte + r.at.len
    && r.rest == rest[r.at.len..]
  }

  /** A variable atom: the maximal run of non-whitespace characters at the cursor. */
  function LexVariable(byte: nat, rest: seq<char>): (r: Lexed)
    ensures Consumes(byte, rest, r)
    ensures forall i :: 0 <= i < r.at.len ==> !IsWhitespace(rest[i])
    ensures r.rest == [] || IsWhitespace(r.rest[0])
  {
    var n := NextWhitespace(rest);
    Lexed(Span(byte, n), byte + n, rest[n..])
  }

  predicate IsNumericChar(ch: char) {
    '0' <= ch <= '9' || ch == '.' || ch == '-'
  }

  /** Length of the longest prefix of `s` made of digits, `.` and `-`. */
  function NumericRun(s: seq<char>): (n: nat)
    ensures n <= |s|
    ensures forall i :: 0 <= i < n ==> IsNumericChar(s[i])
    ensures n < |s| ==> !IsNumericChar(s[n])
  {
    if s == [] || !IsNumericChar(s[0]) then 0 else 1 + NumericRun(s[1..])
  }

  /** A numeric atom: the maximal run of digits, `.` and `-` at the cursor; its form is not checked. */
  function LexNumeric(byte: nat, rest: seq<char>): (r: Lexed)
    ensures Consumes(byte, rest, r)
    ensures forall i :: 0 <= i < r.at.len ==> IsNumericChar(rest[i])
    ensures r.rest == [] || !IsNumericChar(r.rest[0])
  {
    var n := NumericRun(rest);
    Lexed(Span(byte, n), byte + n, rest[n..])
  }

  predicate IsQuote(ch: char) {
    ch == '\'' || ch == '"'
  }

  /**
   * The body of a literal quoted with `q`: a sequence of escapes (a backslash
   * and any one character) and of characters that are neither `q` nor a backslash.
   */
  predicate EscapedBody(t: seq<char>, q: char)
    decreases |t|
  {
    || t == []
    || (t[0] == '\\' && |t| >= 2 && EscapedBody(t[2..], q))
    || (t[0] != '\\' && t[0] != q && EscapedBody(t[1..], q))
  }

  /**
   * Scans `s` from `i` for the quote `q` that closes a literal, skipping the
   * character after each backslash. The result is the first `k` at which the
   * text from `i` is a complete body followed by `q`; there is none exactly
   * when the scan returns None.
   */
  function ScanText(s: seq<char>, q: char, i: nat): (r: Option<nat>)
    requires i <= |s| && IsQuote(q)
    ensures r.Some? ==> i <= r.value < |s| && s[r.value] == q && EscapedBody(s[i..r.value], q)
    ensures forall j :: i <= j < |s| && s[j] == q && EscapedBody(s[i..j], q) ==> r == Some(j)
    decreases |s| - i
  {
    if i == |s| then None
    else if s[i] == '\\' then
      if i + 1 == |s| then None else ScanText(s, q, i + 2)
    else if s[i] == q then Some(i)
    else ScanText(s, q, i + 1)
  }

  /**
   * A quoted text atom. `rest` starts with its opening quote `q`; the atom
   * runs up to and including the matching unescaped closing quote, and it is
   * an IncompleteString covering all of `rest` when there is none.
   */
  function LexText(byte: nat, rest: seq<char>, q: char): (r: Result<Lexed, LexerError>)
    requires |rest| >= 1 && rest[0] == q && IsQuote(q)
    ensures r.Ok? ==> && Consumes(byte, rest, r.value)
                      && 2 * QuoteLen <= r.value.at.len
                      && rest[r.value.at.len - 1] == q
                      && EscapedBody(rest[1..r.value.at.len - 1], q)
    ensures r.Err? ==> && r.error == IncompleteString(Span(byte, |rest|))
                       && forall j :: 1 <= j < |rest| && rest[j] == q ==> !EscapedBody(rest[1..j], q)
  {
    match ScanText(rest, q, 1)
    case Some(k) => Ok(Lexed(Span(byte, k + QuoteLen), byte + k + QuoteLen, rest[k + QuoteLen..]))
    case None => Err(IncompleteString(Span(byte, |rest|)))
  }

  /**
   * A translated text atom `_(` quoted-text `)`. `rest` starts with `_(`.
   * Without a quote after `_(` it is an IncompleteTranslatedString over all
   * of `rest`; an unterminated inner literal is that literal's
   * IncompleteString; a missing `)` is an IncompleteTranslatedString over
   * `_(` and the literal.
   */
  function LexTranslated(byte: nat, rest: seq<char>): (r: Result<Lexed, LexerError>)
    requires |rest| >= StartTranslateLen && rest[0] == '_' && rest[1] == '('
    ensures r.Ok? ==> && Consumes(byte, rest, r.value)
                      && var n := r.value.at.len;
                      && StartTranslateLen + 2 * QuoteLen + EndTranslateLen <= n
                      && IsQuote(rest[2]) && rest[n - 2] == rest[2] && rest[n - 1] == ')'
                      && EscapedBody(rest[3..n - 2], rest[2])
    ensures r.Err? ==> || (r.error.IncompleteTranslatedString? && r.error.at.start == byte
                           && StartTranslateLen <= r.error.at.len <= |rest|)
                       || r.error == IncompleteString(Span(byte + StartTranslateLen, |rest| - StartTranslateLen))
    ensures (|rest| == StartTranslateLen || !IsQuote(rest[2])) ==>
              r == Err(IncompleteTranslatedString(Span(byte, |rest|)))
  {
    if |rest| == StartTranslateLen || !IsQuote(rest[2]) then
      Err(IncompleteTranslatedString(Span(byte, |rest|)))
    else
      match LexText(byte + StartTranslateLen, rest[StartTranslateLen..], rest[2])
      case Err(e) => Err(e)
      case Ok(inner) =>
        var len := StartTranslateLen + inner.at.len;
        if inner.rest != [] && inner.rest[0] == ')' then
          assert rest[StartTranslateLen..][1..inner.at.len - 1] == rest[3..len - 1];
          Ok(Lexed(Span(byte, len + EndTranslateLen), inner.byte + EndTranslateLen, inner.rest[EndTranslateLen..]))
        else
          Err(IncompleteTranslatedString(Span(byte, len)))
  }

  /** The span of a quoted text's content: its raw span without the two quotes. */
  function TextContentAt(at: Span): (r: Span)
    requires at.len >= 2 * QuoteLen
    ensures r.start == at.start + QuoteLen && r.End() + QuoteLen == at.End()
  {
    Span(at.start + QuoteLen, at.len - 2 * QuoteLen)
  }

  /** The span of a translated text's content: its raw span without `_(` and the quote before it, and without the quote and `)` after it. */
  function TranslatedTextContentAt(at: Span): (r: Span)
    requires at.len >= StartTranslateLen + EndTranslateLen + 2 * QuoteLen
    ensures r.start == at.start + StartTranslateLen + QuoteLen
    ensures r.End() + QuoteLen + EndTranslateLen == at.End()
  {
    Span(at.start + StartTranslateLen + QuoteLen, at.len - StartTranslateLen - EndTranslateLen - 2 * QuoteLen)
  }

  /** `d` is `c` with a prefix of its rest consumed: the same text, from a later offset. */
  predicate Consumed(c: Cursor, d: Cursor) {
    c.byte <= d.byte <= c.End() && d.rest == c.rest[d.byte - c.byte..]
  }

  /** The cursor after the first `k` characters of the rest are consumed. */
  function Skip(c: Cursor, k: nat): (d: Cursor)
    requires k <= |c.rest|
    ensures Consumed(c, d) && d.byte == c.byte + k
  {
    Cursor(c.byte + k, c.rest[k..])
  }

  /** A cursor that is the template's text from its offset up to `end` stays so when part of it is consumed. */
  lemma ConsumedKeepsSlice(template: seq<char>, end: nat, c: Cursor, d: Cursor)
    requires c.byte <= end <= |template| && c.rest == template[c.byte..end]
    requires Consumed(c, d)
    ensures d.rest == template[d.byte..end]
  {
    SliceOfSlice(template, c.byte, end - c.byte, d.byte - c.byte, end - d.byte);
  }

  /** A slice of a slice of `t` is a slice of `t`. */
  lemma SliceOfSlice(t: seq<char>, a: nat, n: nat, k: nat, m: nat)
    requires a + n <= |t| && k + m <= n
    ensures t[a..a + n][k..k + m] == t[a + k..a + k + m]
  {
    var inner, direct := t[a..a + n][k..k + m], t[a + k..a + k + m];
    assert forall i :: 0 <= i < m ==> inner[i] == direct[i];
  }
}
