/**
 * The lexer for the argument text of an `{% if %}` tag (src/lex/ifcondition.rs):
 * a flat, left-to-right stream of operator, `not` and atom tokens, each
 * carrying only a span of the template, or a single terminal error.
 *
 * `Step` is the pure meaning of one pull of the iterator and `Tokenize` the
 * whole stream; the class `IfConditionLexer` is the iterator itself, whose
 * methods update the cursor in place and are proved against them.
 */
module IfCondition {
  import opened Wrappers
  import opened Lex
  import opened Common

  datatype IfConditionAtom = Numeric | Text | TranslatedText | Variable

  datatype IfConditionOperator =
    | And | Or | Equal | NotEqual | LessThan | GreaterThan
    | LessThanEqual | GreaterThanEqual | In | NotIn | Is | IsNot

  datatype IfConditionTokenType =
    | Atom(atom: IfConditionAtom)
    | Operator(op: IfConditionOperator)
    | Not

  datatype IfConditionToken = IfConditionToken(at: Span, tokenType: IfConditionTokenType)

  /** What one pull of the iterator yields. */
  type Item = Result<IfConditionToken, LexerError>

  /** One pull: the item yielded and the cursor left behind. */
  datatype Pulled = Pulled(item: Item, next: Cursor)

  /** The span an item reports: a token's raw span or the error's span. */
  function ItemAt(item: Item): Span {
    match item
    case Ok(token) => token.at
    case Err(e) => e.at
  }

  /** A token long enough for its delimiters to be stripped. */
  predicate WellFormed(token: IfConditionToken) {
    && (token.tokenType == Atom(Text) ==> token.at.len >= 2 * QuoteLen)
    && (token.tokenType == Atom(TranslatedText) ==>
          token.at.len >= StartTranslateLen + EndTranslateLen + 2 * QuoteLen)
  }

  /**
   * The span of a token's payload: the raw span for every kind except the two
   * quoted kinds, whose delimiters it strips; it never leaves the raw span.
   */
  function ContentAt(token: IfConditionToken): (r: Span)
    requires WellFormed(token)
    ensures token.tokenType != Atom(Text) && token.tokenType != Atom(TranslatedText) ==> r == token.at
    ensures token.tokenType == Atom(Text) ==>
              r.start == token.at.start + QuoteLen && r.End() + QuoteLen == token.at.End()
    ensures token.tokenType == Atom(TranslatedText) ==>
              && r.start == token.at.start + StartTranslateLen + QuoteLen
              && r.End() + QuoteLen + EndTranslateLen == token.at.End()
    ensures token.at.start <= r.start && r.End() <= token.at.End()
  {
    match token.tokenType
    case Atom(Text) => TextContentAt(token.at)
    case Atom(TranslatedText) => TranslatedTextContentAt(token.at)
    case _ => token.at
  }

  /** The whitespace before the word that follows `rest[..index]`, and that word's length. */
  function PeekWord(rest: seq<char>, index: nat): (r: (nat, nat))
    requires index <= |rest|
    ensures index + r.0 + r.1 <= |rest|
  {
    var after := rest[index..];
    var ws := NextNonWhitespace(after);
    (ws, NextWhitespace(after[ws..]))
  }

  /**
   * The keyword match on the first word `rest[..index]`: the token type and
   * the length it spans, or None when the word is no operator keyword. `not`
   * and `is` look one word ahead for `in` and `not`.
   */
  function MatchKeyword(rest: seq<char>, index: nat): (r: Option<(IfConditionTokenType, nat)>)
    requires index <= |rest|
    ensures r.Some? ==> 0 < index <= r.value.1 <= |rest| && !r.value.0.Atom?
  {
    var word := rest[..index];
    if word == "and" then Some((Operator(And), index))
    else if word == "or" then Some((Operator(Or), index))
    else if word == "not" then
      var (ws, len) := PeekWord(rest, index);
      if rest[index + ws..index + ws + len] == "in" then Some((Operator(NotIn), index + ws + len))
      else Some((Not, index))
    else if word == "==" then Some((Operator(Equal), index))
    else if word == "!=" then Some((Operator(NotEqual), index))
    else if word == "<" then Some((Operator(LessThan), index))
    else if word == ">" then Some((Operator(GreaterThan), index))
    else if word == "<=" then Some((Operator(LessThanEqual), index))
    else if word == ">=" then Some((Operator(GreaterThanEqual), index))
    else if word == "in" then Some((Operator(In), index))
    else if word == "is" then
      var (ws, len) := PeekWord(rest, index);
      if rest[index + ws..index + ws + len] == "not" then Some((Operator(IsNot), index + ws + len))
      else Some((Operator(Is), index))
    else None
  }

  /**
   * The cursor after an atom: it fails unless whitespace or the end follows,
   * and otherwise skips that whitespace (`trim_start`).
   */
  function RemainderStep(c: Cursor): (r: Result<Cursor, LexerError>)
    ensures r.Ok? <==> c.rest == [] || IsWhitespace(c.rest[0])
    ensures r.Ok? ==> && Consumed(c, r.value)
                      && (r.value.rest == [] || !IsWhitespace(r.value.rest[0]))
                      && (c.rest != [] ==> |r.value.rest| < |c.rest|)
    ensures r.Err? ==> && r.error == InvalidRemainder(Span(c.byte, NextWhitespace(c.rest)))
                       && 0 < NextWhitespace(c.rest)
  {
    var n := NextWhitespace(c.rest);
    if n == 0 then Ok(Skip(c, NextNonWhitespace(c.rest)))
    else Err(InvalidRemainder(Span(c.byte, n)))
  }

  /**
   * What an atom sub-lexer guarantees: a token starts at the cursor, stays in
   * the rest, is well formed, and the cursor moves just past it (and it is
   * empty only on a whitespace character); an error lies in the rest and
   * empties it.
   */
  predicate AtomPulled(c: Cursor, p: Pulled)
    requires c.rest != []
  {
    && c.byte <= ItemAt(p.item).start && ItemAt(p.item).End() <= c.End()
    && (p.item.Err? ==> p.next == Cursor(c.byte, []))
    && (p.item.Ok? ==>
          && var token := p.item.value;
          && token.at.start == c.byte && token.at.len <= |c.rest|
          && p.next == Skip(c, token.at.len)
          && WellFormed(token)
          && (token.at.len > 0 || IsWhitespace(c.rest[0])))
  }

  /** A translated text at the cursor (`lex_translated`); an error empties the rest. */
  function TranslatedStep(c: Cursor): (p: Pulled)
    requires |c.rest| >= StartTranslateLen && c.rest[0] == '_' && c.rest[1] == '('
    ensures AtomPulled(c, p)
  {
    match Common.LexTranslated(c.byte, c.rest)
    case Ok(l) => Pulled(Ok(IfConditionToken(l.at, Atom(TranslatedText))), Cursor(l.byte, l.rest))
    case Err(e) => Pulled(Err(e), Cursor(c.byte, []))
  }

  /** A quoted text opened by `quote` at the cursor (`lex_text`); an error empties the rest. */
  function TextStep(c: Cursor, quote: char): (p: Pulled)
    requires c.rest != [] && c.rest[0] == quote && IsQuote(quote)
    ensures AtomPulled(c, p)
  {
    match Common.LexText(c.byte, c.rest, quote)
    case Ok(l) => Pulled(Ok(IfConditionToken(l.at, Atom(Text))), Cursor(l.byte, l.rest))
    case Err(e) => Pulled(Err(e), Cursor(c.byte, []))
  }

  /** A numeric literal at the cursor (`lex_numeric`). */
  function NumericStep(c: Cursor): (p: Pulled)
    requires c.rest != [] && IsNumericChar(c.rest[0])
    ensures AtomPulled(c, p) && p.item.Ok?
  {
    var l := Common.LexNumeric(c.byte, c.rest);
    Pulled(Ok(IfConditionToken(l.at, Atom(Numeric))), Cursor(l.byte, l.rest))
  }

  /** A variable at the cursor (`lex_variable`). */
  function VariableStep(c: Cursor): (p: Pulled)
    requires c.rest != []
    ensures AtomPulled(c, p) && p.item.Ok?
  {
    var l := Common.LexVariable(c.byte, c.rest);
    Pulled(Ok(IfConditionToken(l.at, Atom(Variable))), Cursor(l.byte, l.rest))
  }

  /**
   * The atom at the cursor, chosen by its first character: `_(` a translated
   * text, a quote a text, a digit or `-` a number, anything else (a lone `_`
   * included) a variable.
   */
  function LexAtom(c: Cursor): (p: Pulled)
    requires c.rest != []
    ensures AtomPulled(c, p)
  {
    var first := c.rest[0];
    if first == '_' then
      if |c.rest| >= StartTranslateLen && c.rest[1] == '(' then TranslatedStep(c) else VariableStep(c)
    else if first == '"' || first == '\'' then TextStep(c, first)
    else if '0' <= first <= '9' || first == '-' then NumericStep(c)
    else VariableStep(c)
  }

  /**
   * What every pull guarantees: it consumes text; the item's span lies in the
   * unread text; an error empties the rest; a token leaves the same text
   * from a later offset, empty or at a non-whitespace character, ends
   * where the next pull begins or before, and is empty only when the text
   * it was lexed from starts with whitespace.
   */
  predicate PullAdvances(c: Cursor, p: Pulled) {
    && c.byte <= p.next.byte <= c.End() && |p.next.rest| < |c.rest|
    && c.byte <= ItemAt(p.item).start && ItemAt(p.item).End() <= c.End()
    && (p.item.Err? ==> p.next.rest == [])
    && (p.item.Ok? ==>
          && Consumed(c, p.next)
          && (p.next.rest == [] || !IsWhitespace(p.next.rest[0]))
          && ItemAt(p.item).End() <= p.next.byte
          && WellFormed(p.item.value)
          && (!IsWhitespace(c.rest[0]) ==> p.item.value.at.len > 0))
  }

  /** One pull when the first word is no keyword (`lex_condition`): an atom, then the remainder check. */
  function LexConditionStep(c: Cursor): (p: Pulled)
    requires c.rest != []
    ensures PullAdvances(c, p)
  {
    var atom := LexAtom(c);
    if atom.item.Err? then atom
    else
      match RemainderStep(atom.next)
      case Ok(next) => Pulled(atom.item, next)
      case Err(e) => Pulled(Err(e), Cursor(atom.next.byte, []))
  }

  /** One pull when the first word is a keyword spanning `len` characters: the token, then the whitespace after it is skipped. */
  function KeywordStep(c: Cursor, tokenType: IfConditionTokenType, len: nat): (p: Pulled)
    requires 0 < len <= |c.rest| && !tokenType.Atom?
    ensures PullAdvances(c, p)
  {
    var after := c.rest[len..];
    var skip := NextNonWhitespace(after);
    assert after[skip..] == c.rest[len + skip..];
    Pulled(Ok(IfConditionToken(Span(c.byte, len), tokenType)), Skip(c, len + skip))
  }

  /** A keyword pull, given the length of the whitespace after the keyword. */
  lemma KeywordStepOn(c: Cursor, tokenType: IfConditionTokenType, len: nat, skip: nat)
    requires 0 < len <= |c.rest| && !tokenType.Atom? && NextNonWhitespace(c.rest[len..]) == skip
    ensures len + skip <= |c.rest|
    ensures KeywordStep(c, tokenType, len) == Pulled(Ok(IfConditionToken(Span(c.byte, len), tokenType)), Skip(c, len + skip))
  {
  }

  /**
   * One pull of the iterator: nothing exactly on an empty rest, otherwise the
   * keyword match on the first word, or else an atom.
   */
  function Step(c: Cursor): (r: Option<Pulled>)
    ensures r.None? <==> c.rest == []
    ensures r.Some? ==> PullAdvances(c, r.value)
  {
    if c.rest == [] then None
    else
      match MatchKeyword(c.rest, NextWhitespace(c.rest))
      case None => Some(LexConditionStep(c))
      case Some((tokenType, len)) => Some(KeywordStep(c, tokenType, len))
  }

  /** Every item the iterator yields from `c`, in order, until it is exhausted. */
  function Tokenize(c: Cursor): seq<Item>
    decreases |c.rest|
  {
    match Step(c)
    case None => []
    case Some(p) => [p.item] + Tokenize(p.next)
  }

  /** Appending the next pull's item to what was collected leaves the rest of the stream to come. */
  lemma TokenizeAppend(items: seq<Item>, c: Cursor)
    requires c.rest != []
    ensures items + [Step(c).value.item] + Tokenize(Step(c).value.next) == items + Tokenize(c)
  {
    assert Tokenize(c) == [Step(c).value.item] + Tokenize(Step(c).value.next);
  }

  /** The items `IfConditionLexer::new(template, parts).collect()` yields. */
  function TokenizeTag(template: seq<char>, parts: TagParts): seq<Item>
    requires ValidSpan(template, parts.at)
  {
    Tokenize(Cursor(parts.at.start, Content(template, parts.at)))
  }

  /** The iterator over the argument text of an `{% if %}` tag. */
  class IfConditionLexer {
    const template: seq<char>
    /** The end of the argument span. */
    ghost const end: nat
    var rest: seq<char>
    var byte: nat

    /** Until an error empties it, `rest` is the template's text from `byte` to the end of the span. */
    ghost predicate Valid()
      reads this
    {
      && byte <= end <= |template|
      && (rest == [] || rest == template[byte..end])
    }

    function State(): Cursor
      reads this
    {
      Cursor(byte, rest)
    }

    constructor (template: seq<char>, parts: TagParts)
      requires ValidSpan(template, parts.at)
      ensures Valid() && this.template == template && end == parts.at.End()
      ensures rest == Content(template, parts.at) && byte == parts.at.start
    {
      this.template := template;
      end := parts.at.End();
      rest := Content(template, parts.at);
      byte := parts.at.start;
    }

    /** One pull: the keyword match, or else an atom. */
    method Next() returns (r: Option<Item>)
      requires Valid()
      modifies this
      ensures Valid()
      ensures old(rest) == [] ==> r == None && State() == old(State())
      ensures old(rest) != [] ==> && r == Some(Step(old(State())).value.item)
                                  && State() == Step(old(State())).value.next
      ensures r.Some? && r.value.Ok? ==> byte + |rest| == old(byte + |rest|)
    {
      if rest == [] {
        return None;
      }
      var index := NextWhitespace(rest);
      var matched := MatchKeyword(rest, index);
      if matched.None? {
        var item := LexCondition();
        return Some(item);
      }
      var (tokenType, len) := matched.value;
      var item := LexKeyword(tokenType, len);
      r := Some(item);
    }

    /** The keyword token of `len` characters at the cursor, then the whitespace after it is skipped. */
    method LexKeyword(tokenType: IfConditionTokenType, len: nat) returns (r: Item)
      requires Valid() && 0 < len <= |rest| && !tokenType.Atom?
      modifies this
      ensures Valid()
      ensures Pulled(r, State()) == KeywordStep(old(State()), tokenType, len)
    {
      var at := Span(byte, len);
      var after := rest[len..];
      var nextIndex := NextNonWhitespace(after);
      ghost var before := State();
      KeywordStepOn(before, tokenType, len, nextIndex);
      var skip := len + nextIndex;
      assert after[nextIndex..] == rest[skip..];
      byte := byte + skip;
      rest := rest[skip..];
      assert State() == Skip(before, skip);
      ConsumedKeepsSlice(template, end, before, State());
      r := Ok(IfConditionToken(at, tokenType));
    }

    /** The atom at the cursor, then the remainder check. */
    method LexCondition() returns (r: Item)
      requires Valid() && rest != []
      modifies this
      ensures Valid()
      ensures Pulled(r, State()) == LexConditionStep(old(State()))
    {
      ghost var c := State();
      var token: IfConditionToken;
      var first := rest[0];
      if first == '_' {
        if |rest| >= StartTranslateLen && rest[1] == '(' {
          var lexed := LexTranslated();
          if lexed.Err? {
            return lexed;
          }
          token := lexed.value;
        } else {
          token := LexVariable();
        }
      } else if first == '"' || first == '\'' {
        var lexed := LexText(first);
        if lexed.Err? {
          return lexed;
        }
        token := lexed.value;
      } else if '0' <= first <= '9' || first == '-' {
        token := LexNumeric();
      } else {
        token := LexVariable();
      }
      assert LexAtom(c) == Pulled(Ok(token), State());
      var remainder := LexRemainder();
      if remainder.Err? {
        return Err(remainder.error);
      }
      r := Ok(token);
    }

    method LexVariable() returns (token: IfConditionToken)
      requires Valid() && rest != []
      modifies this
      ensures Valid()
      ensures Pulled(Ok(token), State()) == VariableStep(old(State()))
    {
      var l := Common.LexVariable(byte, rest);
      ghost var before := State();
      rest := l.rest;
      byte := l.byte;
      ConsumedKeepsSlice(template, end, before, State());
      token := IfConditionToken(l.at, Atom(Variable));
    }

    method LexNumeric() returns (token: IfConditionToken)
      requires Valid() && rest != [] && IsNumericChar(rest[0])
      modifies this
      ensures Valid()
      ensures Pulled(Ok(token), State()) == NumericStep(old(State()))
    {
      var l := Common.LexNumeric(byte, rest);
      ghost var before := State();
      rest := l.rest;
      byte := l.byte;
      ConsumedKeepsSlice(template, end, before, State());
      token := IfConditionToken(l.at, Atom(Numeric));
    }

    /** A quoted text opened by `quote`; on failure the rest is emptied. */
    method LexText(quote: char) returns (r: Item)
      requires Valid() && rest != [] && rest[0] == quote && IsQuote(quote)
      modifies this
      ensures Valid()
      ensures Pulled(r, State()) == TextStep(old(State()), quote)
    {
      match Common.LexText(byte, rest, quote)
      case Ok(l) =>
        ghost var before := State();
        rest := l.rest;
        byte := l.byte;
        ConsumedKeepsSlice(template, end, before, State());
        r := Ok(IfConditionToken(l.at, Atom(Text)));
      case Err(e) =>
        rest := [];
        r := Err(e);
    }

    /** A translated text `_(...)`; on failure the rest is emptied. */
    method LexTranslated() returns (r: Item)
      requires Valid() && |rest| >= StartTranslateLen && rest[0] == '_' && rest[1] == '('
      modifies this
      ensures Valid()
      ensures Pulled(r, State()) == TranslatedStep(old(State()))
    {
      match Common.LexTranslated(byte, rest)
      case Ok(l) =>
        ghost var before := State();
        rest := l.rest;
        byte := l.byte;
        ConsumedKeepsSlice(template, end, before, State());
        r := Ok(IfConditionToken(l.at, Atom(TranslatedText)));
      case Err(e) =>
        rest := [];
        r := Err(e);
    }

    /** Checks that whitespace or the end follows an atom and skips that whitespace. */
    method LexRemainder() returns (r: Result<(), LexerError>)
      requires Valid()
      modifies this
      ensures Valid()
      ensures match RemainderStep(old(State()))
              case Ok(next) => r.Ok? && State() == next
              case Err(e) => r == Err(e) && State() == Cursor(old(byte), [])
    {
      var n := NextWhitespace(rest);
      if n == 0 {
        var skip := NextNonWhitespace(rest);
        ghost var before := State();
        byte := byte + skip;
        rest := rest[skip..];
        if before.rest != [] {
          ConsumedKeepsSlice(template, end, before, State());
        }
        r := Ok(());
      } else {
        rest := [];
        r := Err(InvalidRemainder(Span(byte, n)));
      }
    }

    /** Pulls until the iterator is exhausted (`collect`). */
    method Collect() returns (items: seq<Item>)
      requires Valid()
      modifies this
      ensures Valid() && rest == []
      ensures items == Tokenize(old(State()))
    {
      ghost var start := State();
      items := [];
      while true
        invariant Valid()
        invariant items + Tokenize(State()) == Tokenize(start)
        decreases |rest|
      {
        ghost var before := State();
        var item := Next();
        if item.None? {
          break;
        }
        TokenizeAppend(items, before);
        items := items + [item.value];
      }
    }
  }
}
