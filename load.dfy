/**
 * The lexer for the argument text of a `{% load %}` tag (src/lex/load.rs):
 * the text split into whitespace-delimited words, each reported as a span of
 * the template. It cannot fail.
 *
 * `LoadStep` is the pure meaning of one pull of the iterator and
 * `LoadTokens` the whole stream; the class `LoadLexer` is the iterator itself,
 * proved against them.
 */
module Load {
  import opened Wrappers
  import opened Common

  /** A library or symbol name in a `{% load %}` tag. */
  datatype LoadToken = LoadToken(at: Span)

  /** One pull: the token yielded and the cursor left behind. */
  datatype LoadPulled = LoadPulled(token: LoadToken, next: Cursor)

  /**
   * One pull of the iterator: nothing exactly on an empty rest; otherwise the
   * maximal run of non-whitespace characters at the cursor, after which the
   * cursor also skips the whitespace that follows it.
   */
  function LoadStep(c: Cursor): (r: Option<LoadPulled>)
    ensures r.None? <==> c.rest == []
    ensures r.Some? ==> Consumed(c, r.value.next) && c.byte < r.value.next.byte
  {
    if c.rest == [] then None
    else
      var len := NextWhitespace(c.rest);
      var after := c.rest[len..];
      var skip := NextNonWhitespace(after);
      Some(LoadPulled(LoadToken(Span(c.byte, len)), Cursor(c.byte + len + skip, after[skip..])))
  }

  /**
   * The shape of one pull: the token starts at the cursor and is a run of
   * non-whitespace characters, maximal unless the text ends; the cursor then
   * skips exactly the whitespace after it and stops at a word or the end.
   */
  lemma LoadStepShape(c: Cursor)
    requires c.rest != []
    ensures var at, d := LoadStep(c).value.token.at, LoadStep(c).value.next;
            && at.start == c.byte && at.End() <= d.byte
            && (forall i :: 0 <= i < at.len ==> !IsWhitespace(c.rest[i]))
            && (at.len < |c.rest| ==> d.byte > at.End())
            && (forall i :: at.len <= i < d.byte - c.byte ==> IsWhitespace(c.rest[i]))
            && (d.rest == [] || !IsWhitespace(d.rest[0]))
  {
  }

  /** Every token the iterator yields from `c`, in order. */
  function LoadTokens(c: Cursor): seq<LoadToken>
    decreases |c.rest|
  {
    match LoadStep(c)
    case None => []
    case Some(p) => [p.token] + LoadTokens(p.next)
  }

  /** Appending the next pull's token to what was collected leaves the rest of the stream to come. */
  lemma LoadTokensAppend(tokens: seq<LoadToken>, c: Cursor)
    requires c.rest != []
    ensures tokens + [LoadStep(c).value.token] + LoadTokens(LoadStep(c).value.next) == tokens + LoadTokens(c)
  {
    assert LoadTokens(c) == [LoadStep(c).value.token] + LoadTokens(LoadStep(c).value.next);
  }

  /** The tokens `LoadLexer::new(template, parts).collect()` yields. */
  function LoadTokensTag(template: seq<char>, parts: TagParts): seq<LoadToken>
    requires ValidSpan(template, parts.at)
  {
    LoadTokens(Cursor(parts.at.start, Content(template, parts.at)))
  }

  /** The iterator over the argument text of a `{% load %}` tag. */
  class LoadLexer {
    const template: seq<char>
    /** The end of the argument span. */
    ghost const end: nat
    var rest: seq<char>
    var byte: nat

    /** `rest` is always the template's text from `byte` to the end of the span. */
    ghost predicate Valid()
      reads this
    {
      byte <= end <= |template| && rest == template[byte..end]
    }

    function State(): Cursor
      reads this
    {
      Cursor(byte, rest)
    }

    constructor (template: seq<char>, parts: TagParts)
      requires ValidSpan(template, parts.at)
      ensures Valid() && this.template == template && end == parts.at.End()
      ensures rest == Content(template, parts.at) && byte == parts.at.start
    {
      this.template := template;
      end := parts.at.End();
      rest := Content(template, parts.at);
      byte := parts.at.start;
    }

    /** One pull: the word at the cursor, then the whitespace after it is skipped. */
    method Next() returns (r: Option<LoadToken>)
      requires Valid()
      modifies this
      ensures Valid() && byte + |rest| == old(byte + |rest|)
      ensures old(rest) == [] ==> r == None && State() == old(State())
      ensures old(rest) != [] ==> && r == Some(LoadStep(old(State())).value.token)
                                  && State() == LoadStep(old(State())).value.next
    {
      if rest == [] {
        return None;
      }
      var start := byte;
      var len := NextWhitespace(rest);
      var after := rest[len..];
      var next := NextNonWhitespace(after);
      ghost var before := State();
      rest := after[next..];
      byte := byte + len + next;
      ConsumedKeepsSlice(template, end, before, State());
      r := Some(LoadToken(Span(start, len)));
    }

    /** Pulls until the iterator is exhausted (`collect`). */
    method Collect() returns (tokens: seq<LoadToken>)
      requires Valid()
      modifies this
      ensures Valid() && rest == [] && byte == end
      ensures tokens == LoadTokens(old(State()))
    {
      ghost var start := State();
      tokens := [];
      while true
        invariant Valid()
        invariant tokens + LoadTokens(State()) == LoadTokens(start)
        decreases |rest|
      {
        ghost var before := State();
        var token := Next();
        if token.None? {
          break;
        }
        LoadTokensAppend(tokens, before);
        tokens := tokens + [token.value];
      }
    }
  }
}
