/**
 * What the `{% load %}` lexer promises about the whole stream: tokens lie in
 * the argument span, in source order and disjoint, and the characters they
 * cover are exactly the non-whitespace ones, so the tokens are the words.
 */
module LoadLemmas {
  import opened Wrappers
  import opened Common
  import opened Load

  /** Some token of `tokens` covers the absolute offset `p`. */
  predicate Covered(tokens: seq<LoadToken>, p: nat) {
    exists i :: 0 <= i < |tokens| && tokens[i].at.start <= p < tokens[i].at.End()
  }

  /** The stream from a non-empty rest is the first pull's token, then the stream after it. */
  lemma LoadTokensUnfold(c: Cursor)
    requires c.rest != []
    ensures LoadTokens(c) == [LoadStep(c).value.token] + LoadTokens(LoadStep(c).value.next)
    ensures LoadStep(c).value.next.End() == c.End()
  {
  }

  /** A known first pull fixes the head of the stream. */
  lemma LoadTokensStep(c: Cursor, p: LoadPulled)
    requires LoadStep(c) == Some(p)
    ensures LoadTokens(c) == [p.token] + LoadTokens(p.next)
  {
  }

  /** One pull, given the length of the word at the cursor and of the whitespace after it. */
  lemma LoadStepOn(c: Cursor, len: nat, skip: nat)
    requires c.rest != [] && len <= |c.rest| && NextWhitespace(c.rest) == len
    requires NextNonWhitespace(c.rest[len..]) == skip
    ensures len + skip <= |c.rest|
    ensures LoadStep(c) == Some(LoadPulled(LoadToken(Span(c.byte, len)), Cursor(c.byte + len + skip, c.rest[len + skip..])))
  {
    assert c.rest[len..][skip..] == c.rest[len + skip..];
  }

  /** Every token lies within `[lo, hi)`. */
  predicate Inside(tokens: seq<LoadToken>, lo: nat, hi: nat) {
    forall i :: 0 <= i < |tokens| ==> lo <= tokens[i].at.start && tokens[i].at.End() <= hi
  }

  /** Each token ends strictly before the next one starts: disjoint and in source order. */
  predicate Ordered(tokens: seq<LoadToken>) {
    forall i, j :: 0 <= i < j < |tokens| ==> tokens[i].at.End() < tokens[j].at.start
  }

  /** Where one pull leaves the cursor relative to the token it yields. */
  lemma StepBounds(c: Cursor)
    requires c.rest != []
    ensures var p := LoadStep(c).value;
            && p.token.at.start == c.byte && p.token.at.End() <= p.next.byte
            && (p.next.rest != [] ==> p.token.at.End() < p.next.byte)
            && c.byte <= p.next.byte && p.next.End() == c.End()
  {
  }

  /** Every token lies between the cursor and the end of its text. */
  lemma {:induction false} LoadTokensWithin(c: Cursor)
    ensures Inside(LoadTokens(c), c.byte, c.End())
    decreases |c.rest|
  {
    if c.rest != [] {
      var p := LoadStep(c).value;
      LoadTokensUnfold(c);
      StepBounds(c);
      LoadTokensWithin(p.next);
      ConsInside(LoadTokens(c), p.token, LoadTokens(p.next), c.byte, p.next.byte, c.End());
    }
  }

  lemma ConsInside(tokens: seq<LoadToken>, t: LoadToken, tail: seq<LoadToken>, lo: nat, mid: nat, hi: nat)
    requires tokens == [t] + tail && lo <= mid && Inside(tail, mid, hi)
    requires lo <= t.at.start && t.at.End() <= hi
    ensures Inside(tokens, lo, hi)
  {
    forall i | 0 < i < |tokens|
      ensures lo <= tokens[i].at.start && tokens[i].at.End() <= hi
    {
      assert tokens[i] == tail[i - 1];
    }
  }

  lemma ConsOrdered(tokens: seq<LoadToken>, t: LoadToken, tail: seq<LoadToken>, mid: nat, hi: nat)
    requires tokens == [t] + tail && Ordered(tail) && Inside(tail, mid, hi)
    requires tail != [] ==> t.at.End() < mid
    ensures Ordered(tokens)
  {
    forall i, j | 0 <= i < j < |tokens|
      ensures tokens[i].at.End() < tokens[j].at.start
    {
      assert tokens[j] == tail[j - 1];
      if i > 0 {
        assert tokens[i] == tail[i - 1];
      }
    }
  }

  /** The tokens are disjoint and in source order. */
  lemma {:induction false} LoadTokensOrdered(c: Cursor)
    ensures Ordered(LoadTokens(c))
    decreases |c.rest|
  {
    if c.rest != [] {
      var p := LoadStep(c).value;
      LoadTokensUnfold(c);
      StepBounds(c);
      LoadTokensOrdered(p.next);
      LoadTokensWithin(p.next);
      ConsOrdered(LoadTokens(c), p.token, LoadTokens(p.next), p.next.byte, p.next.End());
    }
  }

  /** When the text starts with a word, no token is empty. */
  lemma {:induction false} LoadTokensNonEmpty(c: Cursor)
    requires c.rest == [] || !IsWhitespace(c.rest[0])
    ensures forall i :: 0 <= i < |LoadTokens(c)| ==> LoadTokens(c)[i].at.len > 0
    decreases |c.rest|
  {
    if c.rest != [] {
      var p := LoadStep(c).value;
      var tokens, tail := LoadTokens(c), LoadTokens(p.next);
      LoadTokensUnfold(c);
      LoadTokensNonEmpty(p.next);
      assert p.token.at.len > 0;
      forall i | 0 < i < |tokens|
        ensures tokens[i].at.len > 0
      {
        assert tokens[i] == tail[i - 1];
      }
    }
  }

  /** A token that does not cover `p` leaves the coverage of `p` to the tokens after it. */
  lemma CoveredTail(tokens: seq<LoadToken>, tail: seq<LoadToken>, p: nat)
    requires tokens != [] && tail == tokens[1..]
    requires !(tokens[0].at.start <= p < tokens[0].at.End())
    ensures Covered(tokens, p) <==> Covered(tail, p)
  {
    if Covered(tokens, p) {
      var i :| 0 <= i < |tokens| && tokens[i].at.start <= p < tokens[i].at.End();
      assert tail[i - 1] == tokens[i];
    }
    if Covered(tail, p) {
      var i :| 0 <= i < |tail| && tail[i].at.start <= p < tail[i].at.End();
      assert tokens[i + 1] == tail[i];
    }
  }

  /** A character of the text is covered by a token exactly when it is not whitespace. */
  lemma {:induction false} LoadTokensCover(c: Cursor)
    ensures forall k :: 0 <= k < |c.rest| ==> (!IsWhitespace(c.rest[k]) <==> Covered(LoadTokens(c), c.byte + k))
    decreases |c.rest|
  {
    if c.rest != [] {
      var p := LoadStep(c).value;
      var at, d := p.token.at, p.next;
      var tokens, tail := LoadTokens(c), LoadTokens(d);
      LoadTokensUnfold(c);
      LoadTokensCover(d);
      LoadTokensWithin(d);
      assert tokens[0] == p.token && tokens[1..] == tail;
      forall k | 0 <= k < |c.rest|
        ensures !IsWhitespace(c.rest[k]) <==> Covered(tokens, c.byte + k)
      {
        if k < at.len {
          assert tokens[0].at.start <= c.byte + k < tokens[0].at.End();
        } else {
          CoveredTail(tokens, tail, c.byte + k);
          if k < d.byte - c.byte {
            assert !Covered(tail, c.byte + k);
          } else {
            var j := k - (d.byte - c.byte);
            assert d.rest[j] == c.rest[k];
          }
        }
      }
    }
  }

  /**
   * The tokens of a `{% load %}` tag: inside the argument span, in source
   * order and disjoint, and covering exactly the span's non-whitespace
   * characters.
   */
  lemma LoadTagTokens(template: seq<char>, parts: TagParts)
    requires ValidSpan(template, parts.at)
    ensures Inside(LoadTokensTag(template, parts), parts.at.start, parts.at.End())
    ensures Ordered(LoadTokensTag(template, parts))
    ensures forall p :: parts.at.start <= p < parts.at.End() ==>
              (!IsWhitespace(template[p]) <==> Covered(LoadTokensTag(template, parts), p))
  {
    var c := Cursor(parts.at.start, Content(template, parts.at));
    assert LoadTokensTag(template, parts) == LoadTokens(c);
    LoadTokensWithin(c);
    LoadTokensOrdered(c);
    LoadTokensCover(c);
    SpanCover(template, parts.at, LoadTokens(c));
  }

  /** Coverage stated over the span's own text, restated over the template's offsets. */
  lemma SpanCover(template: seq<char>, at: Span, tokens: seq<LoadToken>)
    requires ValidSpan(template, at)
    requires forall k :: 0 <= k < |Content(template, at)| ==>
               (!IsWhitespace(Content(template, at)[k]) <==> Covered(tokens, at.start + k))
    ensures forall p :: at.start <= p < at.End() ==> (!IsWhitespace(template[p]) <==> Covered(tokens, p))
  {
    var text := Content(template, at);
    forall p | at.start <= p < at.End()
      ensures !IsWhitespace(template[p]) <==> Covered(tokens, p)
    {
      var k := p - at.start;
      assert text[k] == template[p];
    }
  }
}
