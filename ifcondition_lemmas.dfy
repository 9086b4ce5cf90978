/**
 * Properties of the `{% if %}` lexer's token stream: errors are terminal,
 * items come in source order inside the argument span, keywords and their
 * two-word forms, the atom sub-lexers together with the remainder check, and
 * the shape every token has when it is read back from the template.
 */
module IfConditionLemmas {
  import opened Wrappers
  import opened Lex
  import opened Common
  import opened IfCondition

  lemma {:induction false} ErrorIsLast(c: Cursor)
    ensures forall i :: 0 <= i < |Tokenize(c)| && Tokenize(c)[i].Err? ==> i == |Tokenize(c)| - 1
    decreases |c.rest|
  {
    match Step(c)
    case None =>
    case Some(p) =>
      ErrorIsLast(p.next);
      if p.item.Err? {
        assert Tokenize(p.next) == [];
      }
  }

  /** The stream is empty exactly when the text is, and an exhausted lexer stays exhausted. */
  lemma ExhaustedIsEmpty(c: Cursor)
    ensures Tokenize(c) == [] <==> c.rest == []
    ensures c.rest == [] ==> Step(c) == None
  {
    if c.rest != [] {
      assert Tokenize(c) == [Step(c).value.item] + Tokenize(Step(c).value.next);
    }
  }

  /** One pull followed by the rest of the stream. */
  lemma TokenizeUnfold(c: Cursor)
    requires c.rest != []
    ensures Tokenize(c) == [Step(c).value.item] + Tokenize(Step(c).value.next)
    ensures Step(c).value.next.End() <= c.End()
  {
  }

  /** Every item's span lies within `[lo, hi)`. */
  predicate ItemsWithin(items: seq<Item>, lo: nat, hi: nat) {
    forall i :: 0 <= i < |items| ==> lo <= ItemAt(items[i]).start && ItemAt(items[i]).End() <= hi
  }

  /** Each item's span ends before the next one's starts. */
  predicate ItemsOrdered(items: seq<Item>) {
    forall i, j :: 0 <= i < j < |items| ==> ItemAt(items[i]).End() <= ItemAt(items[j]).start
  }

  lemma ConsItemsWithin(items: seq<Item>, x: Item, tail: seq<Item>, lo: nat, mid: nat, hi: nat)
    requires items == [x] + tail && lo <= mid && ItemsWithin(tail, mid, hi)
    requires lo <= ItemAt(x).start && ItemAt(x).End() <= hi
    ensures ItemsWithin(items, lo, hi)
  {
    forall i | 0 < i < |items|
      ensures lo <= ItemAt(items[i]).start && ItemAt(items[i]).End() <= hi
    {
      assert items[i] == tail[i - 1];
    }
  }

  lemma ConsItemsOrdered(items: seq<Item>, x: Item, tail: seq<Item>, mid: nat, hi: nat)
    requires items == [x] + tail && ItemsOrdered(tail) && ItemsWithin(tail, mid, hi)
    requires tail != [] ==> ItemAt(x).End() <= mid
    ensures ItemsOrdered(items)
  {
    forall i, j | 0 <= i < j < |items|
      ensures ItemAt(items[i]).End() <= ItemAt(items[j]).start
    {
      assert items[j] == tail[j - 1];
      if i > 0 {
        assert items[i] == tail[i - 1];
      }
    }
  }

  /** Every item of the stream lies in the unread text. */
  lemma {:induction false} TokenizeWithin(c: Cursor)
    ensures ItemsWithin(Tokenize(c), c.byte, c.End())
    decreases |c.rest|
  {
    if c.rest != [] {
      var p := Step(c).value;
      TokenizeUnfold(c);
      TokenizeWithin(p.next);
      ConsItemsWithin(Tokenize(c), p.item, Tokenize(p.next), c.byte, p.next.byte, c.End());
    }
  }

  /** Items of the stream do not overlap and come in source order. */
  lemma {:induction false} TokenizeOrdered(c: Cursor)
    ensures ItemsOrdered(Tokenize(c))
    decreases |c.rest|
  {
    if c.rest != [] {
      var p := Step(c).value;
      TokenizeUnfold(c);
      TokenizeOrdered(p.next);
      TokenizeWithin(p.next);
      if p.item.Err? {
        assert Tokenize(p.next) == [];
      }
      ConsItemsOrdered(Tokenize(c), p.item, Tokenize(p.next), p.next.byte, p.next.End());
    }
  }

  /** Every token of the stream is long enough for its content span. */
  lemma {:induction false} TokenizeWellFormed(c: Cursor)
    ensures forall i :: 0 <= i < |Tokenize(c)| && Tokenize(c)[i].Ok? ==> WellFormed(Tokenize(c)[i].value)
    decreases |c.rest|
  {
    if c.rest != [] {
      var p := Step(c).value;
      TokenizeUnfold(c);
      TokenizeWellFormed(p.next);
      var items, tail := Tokenize(c), Tokenize(p.next);
      forall i | 0 <= i < |items| && items[i].Ok?
        ensures WellFormed(items[i].value)
      {
        if i > 0 {
          assert items[i] == tail[i - 1];
        }
      }
    }
  }

  /** Unless the text starts with whitespace, no token of the stream is empty. */
  lemma {:induction false} TokensNonEmpty(c: Cursor)
    requires c.rest == [] || !IsWhitespace(c.rest[0])
    ensures forall i :: 0 <= i < |Tokenize(c)| && Tokenize(c)[i].Ok? ==> Tokenize(c)[i].value.at.len > 0
    decreases |c.rest|
  {
    match Step(c)
    case None =>
    case Some(p) =>
      if p.item.Ok? {
        TokensNonEmpty(p.next);
      } else {
        assert Tokenize(p.next) == [];
      }
      var items, tail := Tokenize(c), Tokenize(p.next);
      assert items == [p.item] + tail;
      forall i | 0 <= i < |items| && items[i].Ok?
        ensures items[i].value.at.len > 0
      {
        if i > 0 {
          assert items[i] == tail[i - 1];
        }
      }
  }

  /**
   * The items of a tag's argument lie inside the argument span, in source
   * order, each token long enough for its content span; their token starts strictly increase when the argument starts
   * with a non-whitespace character; and at most one error ends the stream.
   */
  lemma TagTokensOrdered(template: seq<char>, parts: TagParts)
    requires ValidSpan(template, parts.at)
    ensures var items := TokenizeTag(template, parts);
            && (forall i :: 0 <= i < |items| ==>
                  parts.at.start <= ItemAt(items[i]).start && ItemAt(items[i]).End() <= parts.at.End())
            && (forall i, j :: 0 <= i < j < |items| ==> ItemAt(items[i]).End() <= ItemAt(items[j]).start)
            && (forall i :: 0 <= i < |items| && items[i].Err? ==> i == |items| - 1)
            && (forall i :: 0 <= i < |items| && items[i].Ok? ==> WellFormed(items[i].value))
    ensures var items := TokenizeTag(template, parts);
            (parts.at.len == 0 || !IsWhitespace(template[parts.at.start])) ==>
              forall i, j :: 0 <= i < j < |items| && items[i].Ok? && items[j].Ok? ==>
                items[i].value.at.start < items[j].value.at.start
  {
    var c := Cursor(parts.at.start, Content(template, parts.at));
    TokenizeWithin(c);
    TokenizeOrdered(c);
    TokenizeWellFormed(c);
    ErrorIsLast(c);
    if parts.at.len == 0 || !IsWhitespace(template[parts.at.start]) {
      TokensNonEmpty(c);
    }
  }

  /** The operator keywords that are one word, and the operator each one means. */
  const SingleWordOperators: map<seq<char>, IfConditionOperator> := map[
    "and" := And, "or" := Or, "==" := Equal, "!=" := NotEqual,
    "<" := LessThan, ">" := GreaterThan, "<=" := LessThanEqual, ">=" := GreaterThanEqual,
    "in" := In]

  /** Every word the keyword match recognises. */
  const Keywords: set<seq<char>> := SingleWordOperators.Keys + {"not", "is"}

  /** The cursor after a token of `len` characters and the whitespace that follows it. */
  function SkipToken(c: Cursor, len: nat): (d: Cursor)
    requires len <= |c.rest|
    ensures Consumed(c, d) && (d.rest == [] || !IsWhitespace(d.rest[0]))
  {
    var skip := NextNonWhitespace(c.rest[len..]);
    assert c.rest[len..][skip..] == c.rest[len + skip..];
    Skip(c, len + skip)
  }

  /** A pull on a matched keyword is the keyword step. */
  lemma StepOnKeyword(c: Cursor, tokenType: IfConditionTokenType, len: nat)
    requires c.rest != [] && MatchKeyword(c.rest, NextWhitespace(c.rest)) == Some((tokenType, len))
    ensures 0 < len <= |c.rest| && !tokenType.Atom?
    ensures Step(c) == Some(Pulled(Ok(IfConditionToken(Span(c.byte, len), tokenType)), SkipToken(c, len)))
  {
    assert Step(c) == Some(KeywordStep(c, tokenType, len));
  }

  /** The word after the first one, as a slice of the whole text. */
  lemma PeekedWord(rest: seq<char>, index: nat)
    requires index <= |rest|
    ensures var after := rest[index..];
            var (ws, len) := PeekWord(rest, index);
            && ws == NextNonWhitespace(after) && len == NextWhitespace(after[ws..])
            && rest[index + ws..index + ws + len] == FirstWord(after[ws..])
  {
    var after := rest[index..];
    var (ws, len) := PeekWord(rest, index);
    SliceOfSlice(rest, index, |rest| - index, ws, len);
    assert rest[index..index + (|rest| - index)] == after;
    assert after[ws..][..len] == after[ws..ws + len];
  }

  /** The keyword match on a one-word operator keyword. */
  lemma MatchSingleWord(rest: seq<char>, index: nat)
    requires index <= |rest| && rest[..index] in SingleWordOperators
    ensures MatchKeyword(rest, index) == Some((Operator(SingleWordOperators[rest[..index]]), index))
  {
    var word := rest[..index];
    if word == "and" {
    } else if word == "or" {
    } else if word == "==" {
    } else if word == "!=" {
    } else if word == "<" {
    } else if word == ">" {
    } else if word == "<=" {
    } else if word == ">=" {
    } else {
      assert word == "in";
    }
  }

  /** A one-word operator keyword yields its operator spanning just the word, and the whitespace after it is skipped. */
  lemma SingleWordKeyword(c: Cursor)
    requires c.rest != [] && FirstWord(c.rest) in SingleWordOperators
    ensures var w := FirstWord(c.rest);
            Step(c) == Some(Pulled(Ok(IfConditionToken(Span(c.byte, |w|), Operator(SingleWordOperators[w]))),
                                   SkipToken(c, |w|)))
  {
    var n := NextWhitespace(c.rest);
    MatchSingleWord(c.rest, n);
    StepOnKeyword(c, Operator(SingleWordOperators[FirstWord(c.rest)]), n);
  }

  /** The keyword match on `not`: NotIn when the peeked word is `in`, else Not. */
  lemma MatchNot(rest: seq<char>, index: nat, ws: nat, len: nat)
    requires index <= |rest| && rest[..index] == "not" && PeekWord(rest, index) == (ws, len)
    ensures index + ws + len <= |rest|
    ensures MatchKeyword(rest, index) ==
              if rest[index + ws..index + ws + len] == "in" then Some((Operator(NotIn), index + ws + len))
              else Some((Not, index))
  {
    var word := rest[..index];
    assert |word| == 3 && word[0] == 'n';
  }

  /** The keyword match on `is`: IsNot when the peeked word is `not`, else Is. */
  lemma MatchIs(rest: seq<char>, index: nat, ws: nat, len: nat)
    requires index <= |rest| && rest[..index] == "is" && PeekWord(rest, index) == (ws, len)
    ensures index + ws + len <= |rest|
    ensures MatchKeyword(rest, index) ==
              if rest[index + ws..index + ws + len] == "not" then Some((Operator(IsNot), index + ws + len))
              else Some((Operator(Is), index))
  {
    var word := rest[..index];
    assert |word| == 2 && word[0] == 'i' && word[1] == 's';
  }

  /**
   * `not` followed by whitespace and exactly the word `in` yields one NotIn
   * spanning both words; otherwise it yields Not spanning `not`, and the
   * following word is left for the next pull.
   */
  lemma NotKeyword(c: Cursor)
    requires c.rest != [] && FirstWord(c.rest) == "not"
    ensures var after := c.rest[3..];
            var ws := NextNonWhitespace(after);
            var next := FirstWord(after[ws..]);
            && (next == "in" ==>
                  Step(c) == Some(Pulled(Ok(IfConditionToken(Span(c.byte, 3 + ws + 2), Operator(NotIn))),
                                         SkipToken(c, 3 + ws + 2))))
            && (next != "in" ==>
                  && Step(c) == Some(Pulled(Ok(IfConditionToken(Span(c.byte, 3), Not)), Skip(c, 3 + ws)))
                  && Step(c).value.next.rest == after[ws..])
  {
    var after := c.rest[3..];
    var ws := NextNonWhitespace(after);
    if FirstWord(after[ws..]) == "in" {
      NotThenIn(c, ws);
    } else {
      NotAlone(c, ws);
    }
  }

  lemma NotThenIn(c: Cursor, ws: nat)
    requires c.rest != [] && FirstWord(c.rest) == "not"
    requires ws == NextNonWhitespace(c.rest[3..]) && FirstWord(c.rest[3..][ws..]) == "in"
    ensures Step(c) == Some(Pulled(Ok(IfConditionToken(Span(c.byte, 3 + ws + 2), Operator(NotIn))), SkipToken(c, 3 + ws + 2)))
  {
    var n := NextWhitespace(c.rest);
    assert n == 3 by { assert |c.rest[..n]| == |"not"|; }
    MatchNot(c.rest, n, PeekWord(c.rest, n).0, PeekWord(c.rest, n).1);
    PeekedWord(c.rest, n);
    assert NextWhitespace(c.rest[3..][ws..]) == 2;
    StepOnKeyword(c, Operator(NotIn), 3 + ws + 2);
  }

  lemma NotAlone(c: Cursor, ws: nat)
    requires c.rest != [] && FirstWord(c.rest) == "not"
    requires ws == NextNonWhitespace(c.rest[3..]) && FirstWord(c.rest[3..][ws..]) != "in"
    ensures Step(c) == Some(Pulled(Ok(IfConditionToken(Span(c.byte, 3), Not)), Skip(c, 3 + ws)))
    ensures Step(c).value.next.rest == c.rest[3..][ws..]
  {
    var n := NextWhitespace(c.rest);
    assert n == 3 by { assert |c.rest[..n]| == |"not"|; }
    MatchNot(c.rest, n, PeekWord(c.rest, n).0, PeekWord(c.rest, n).1);
    PeekedWord(c.rest, n);
    StepOnKeyword(c, Not, 3);
  }

  /**
   * `is` followed by whitespace and exactly the word `not` yields one IsNot
   * spanning both words; otherwise it yields Is spanning `is`.
   */
  lemma IsKeyword(c: Cursor)
    requires c.rest != [] && FirstWord(c.rest) == "is"
    ensures var after := c.rest[2..];
            var ws := NextNonWhitespace(after);
            var next := FirstWord(after[ws..]);
            && (next == "not" ==>
                  Step(c) == Some(Pulled(Ok(IfConditionToken(Span(c.byte, 2 + ws + 3), Operator(IsNot))),
                                         SkipToken(c, 2 + ws + 3))))
            && (next != "not" ==>
                  && Step(c) == Some(Pulled(Ok(IfConditionToken(Span(c.byte, 2), Operator(Is))), Skip(c, 2 + ws)))
                  && Step(c).value.next.rest == after[ws..])
  {
    var after := c.rest[2..];
    var ws := NextNonWhitespace(after);
    if FirstWord(after[ws..]) == "not" {
      IsThenNot(c, ws);
    } else {
      IsAlone(c, ws);
    }
  }

  lemma IsThenNot(c: Cursor, ws: nat)
    requires c.rest != [] && FirstWord(c.rest) == "is"
    requires ws == NextNonWhitespace(c.rest[2..]) && FirstWord(c.rest[2..][ws..]) == "not"
    ensures Step(c) == Some(Pulled(Ok(IfConditionToken(Span(c.byte, 2 + ws + 3), Operator(IsNot))), SkipToken(c, 2 + ws + 3)))
  {
    var n := NextWhitespace(c.rest);
    assert n == 2 by { assert |c.rest[..n]| == |"is"|; }
    MatchIs(c.rest, n, PeekWord(c.rest, n).0, PeekWord(c.rest, n).1);
    PeekedWord(c.rest, n);
    assert NextWhitespace(c.rest[2..][ws..]) == 3;
    StepOnKeyword(c, Operator(IsNot), 2 + ws + 3);
  }

  lemma IsAlone(c: Cursor, ws: nat)
    requires c.rest != [] && FirstWord(c.rest) == "is"
    requires ws == NextNonWhitespace(c.rest[2..]) && FirstWord(c.rest[2..][ws..]) != "not"
    ensures Step(c) == Some(Pulled(Ok(IfConditionToken(Span(c.byte, 2), Operator(Is))), Skip(c, 2 + ws)))
    ensures Step(c).value.next.rest == c.rest[2..][ws..]
  {
    var n := NextWhitespace(c.rest);
    assert n == 2 by { assert |c.rest[..n]| == |"is"|; }
    MatchIs(c.rest, n, PeekWord(c.rest, n).0, PeekWord(c.rest, n).1);
    PeekedWord(c.rest, n);
    StepOnKeyword(c, Operator(Is), 2);
  }

  /** A first word that is no keyword is lexed as an atom followed by the remainder check. */
  lemma NonKeywordIsCondition(c: Cursor)
    requires c.rest != [] && FirstWord(c.rest) !in Keywords
    ensures Step(c) == Some(LexConditionStep(c))
  {
  }

  /**
   * After an atom of `len` characters, the remainder check — the
   * characters up to the next whitespace — either is empty, and the
   * whitespace after the atom is skipped, or makes the pull an
   * InvalidRemainder over that run, which empties the rest.
   */
  lemma RemainderCheck(c: Cursor, token: IfConditionToken)
    requires c.rest != [] && LexAtom(c).item == Ok(token)
    ensures var len := token.at.len;
            var m := NextWhitespace(c.rest[len..]);
            && (m == 0 ==> LexConditionStep(c) == Pulled(Ok(token), SkipToken(c, len)))
            && (m > 0 ==> LexConditionStep(c) ==
                            Pulled(Err(InvalidRemainder(Span(c.byte + len, m))), Cursor(c.byte + len, [])))
  {
    AfterAtom(c, LexAtom(c), token);
  }

  /** The remainder check on the cursor an accepted atom leaves. */
  lemma AfterAtom(c: Cursor, atom: Pulled, token: IfConditionToken)
    requires c.rest != [] && AtomPulled(c, atom) && atom.item == Ok(token)
    ensures var len := token.at.len;
            var m := NextWhitespace(c.rest[len..]);
            && (m == 0 ==> RemainderStep(atom.next) == Ok(SkipToken(c, len)))
            && (m > 0 ==> RemainderStep(atom.next) == Err(InvalidRemainder(Span(c.byte + len, m))))
  {
    var len := token.at.len;
    if NextWhitespace(c.rest[len..]) == 0 {
      RemainderAfterAtom(c, len, atom.next);
    } else {
      InvalidAfterAtom(c, len, atom.next);
    }
  }

  /** The remainder check passes when whitespace or the end follows the atom, and skips that whitespace. */
  lemma RemainderAfterAtom(c: Cursor, len: nat, d: Cursor)
    requires len <= |c.rest| && d == Skip(c, len) && NextWhitespace(c.rest[len..]) == 0
    ensures RemainderStep(d) == Ok(SkipToken(c, len))
  {
    var skip := NextNonWhitespace(c.rest[len..]);
    SkipTwice(c, len, d, skip);
    assert SkipToken(c, len) == Skip(c, len + skip);
  }

  /** Skipping `len` and then `skip` characters is skipping `len + skip`. */
  lemma SkipTwice(c: Cursor, len: nat, d: Cursor, skip: nat)
    requires len <= |c.rest| && d == Skip(c, len) && skip <= |d.rest|
    ensures Skip(d, skip) == Skip(c, len + skip)
  {
    assert c.rest[len..][skip..] == c.rest[len + skip..];
  }

  /** The remainder check fails on the run of non-whitespace right after the atom. */
  lemma InvalidAfterAtom(c: Cursor, len: nat, d: Cursor)
    requires len <= |c.rest| && d == Skip(c, len) && NextWhitespace(c.rest[len..]) > 0
    ensures RemainderStep(d) == Err(InvalidRemainder(Span(c.byte + len, NextWhitespace(c.rest[len..]))))
  {
    assert d == Cursor(c.byte + len, c.rest[len..]);
  }

  /** The first character sends the text to the variable sub-lexer. */
  predicate OpensVariable(rest: seq<char>)
    requires rest != []
  {
    var first := rest[0];
    && !(first == '_' && |rest| >= StartTranslateLen && rest[1] == '(')
    && !IsQuote(first)
    && !('0' <= first <= '9' || first == '-')
  }

  /** A variable never fails: it is the whole first word, and the whitespace after it is skipped. */
  lemma VariableCondition(c: Cursor)
    requires c.rest != [] && OpensVariable(c.rest)
    ensures var n := |FirstWord(c.rest)|;
            LexConditionStep(c) == Pulled(Ok(IfConditionToken(Span(c.byte, n), Atom(Variable))), SkipToken(c, n))
  {
    var n := NextWhitespace(c.rest);
    var token := IfConditionToken(Span(c.byte, n), Atom(Variable));
    assert LexAtom(c) == VariableStep(c);
    assert LexAtom(c).item == Ok(token);
    RemainderCheck(c, token);
    assert NextWhitespace(c.rest[n..]) == 0;
  }

  /** A digit or `-` opens a numeric atom: the maximal run of digits, `.` and `-`. */
  lemma NumericAtom(c: Cursor)
    requires c.rest != [] && ('0' <= c.rest[0] <= '9' || c.rest[0] == '-')
    ensures var n := NumericRun(c.rest);
            && 0 < n
            && LexAtom(c) == Pulled(Ok(IfConditionToken(Span(c.byte, n), Atom(Numeric))), Skip(c, n))
  {
    assert LexAtom(c) == NumericStep(c);
  }

  /**
   * A quote opens a text atom, which ends at the one closing quote after an
   * escaped body, or is an IncompleteString over all of the text, which
   * empties the rest, when there is none.
   */
  lemma TextAtom(c: Cursor)
    requires c.rest != [] && IsQuote(c.rest[0])
    ensures var q := c.rest[0];
            (forall j :: 1 <= j < |c.rest| && c.rest[j] == q ==> !EscapedBody(c.rest[1..j], q)) ==>
              LexAtom(c) == Pulled(Err(IncompleteString(Span(c.byte, |c.rest|))), Cursor(c.byte, []))
    ensures var q := c.rest[0];
            forall j :: 1 <= j < |c.rest| && c.rest[j] == q && EscapedBody(c.rest[1..j], q) ==>
              LexAtom(c) == Pulled(Ok(IfConditionToken(Span(c.byte, j + 1), Atom(Text))), Skip(c, j + 1))
  {
    var q := c.rest[0];
    assert LexAtom(c) == TextStep(c, q);
  }

  /** `_(` opens a translated text; without a quote right after it, the atom is an IncompleteTranslatedString over all of the text. */
  lemma TranslatedNoQuote(c: Cursor)
    requires |c.rest| >= StartTranslateLen && c.rest[0] == '_' && c.rest[1] == '('
    requires |c.rest| == StartTranslateLen || !IsQuote(c.rest[2])
    ensures LexAtom(c) == Pulled(Err(IncompleteTranslatedString(Span(c.byte, |c.rest|))), Cursor(c.byte, []))
  {
    assert LexAtom(c) == TranslatedStep(c);
  }

  /** Without a closing quote for the literal after `_(`, the atom is that literal's IncompleteString. */
  lemma TranslatedUnclosed(c: Cursor)
    requires |c.rest| > StartTranslateLen && c.rest[0] == '_' && c.rest[1] == '(' && IsQuote(c.rest[2])
    requires forall j :: 3 <= j < |c.rest| && c.rest[j] == c.rest[2] ==> !EscapedBody(c.rest[3..j], c.rest[2])
    ensures LexAtom(c) == Pulled(Err(IncompleteString(Span(c.byte + 2, |c.rest| - 2))), Cursor(c.byte, []))
  {
    assert LexAtom(c) == TranslatedStep(c);
    TranslatedStepUnclosed(c);
  }

  /**
   * When the literal after `_(` closes at `j`, the atom is a translated text
   * through the `)` right after it, or, without that `)`, an
   * IncompleteTranslatedString over `_(` and the literal.
   */
  lemma TranslatedClosed(c: Cursor, j: nat)
    requires |c.rest| > StartTranslateLen && c.rest[0] == '_' && c.rest[1] == '(' && IsQuote(c.rest[2])
    requires 3 <= j < |c.rest| && c.rest[j] == c.rest[2] && EscapedBody(c.rest[3..j], c.rest[2])
    ensures LexAtom(c) ==
              if j + 1 < |c.rest| && c.rest[j + 1] == ')' then
                Pulled(Ok(IfConditionToken(Span(c.byte, j + 2), Atom(TranslatedText))), Skip(c, j + 2))
              else
                Pulled(Err(IncompleteTranslatedString(Span(c.byte, j + 1))), Cursor(c.byte, []))
  {
    assert LexAtom(c) == TranslatedStep(c);
    TranslatedStepClosed(c, j);
  }

  /** The inner literal of a translated text, read from the quote after `_(`. */
  lemma InnerText(c: Cursor, j: nat)
    requires |c.rest| > StartTranslateLen && IsQuote(c.rest[2]) && 3 <= j < |c.rest|
    ensures var inner := c.rest[2..];
            inner[0] == c.rest[2] && inner[j - 2] == c.rest[j] && inner[1..j - 2] == c.rest[3..j]
            && inner[j - 1..] == c.rest[j + 1..]
  {
  }

  lemma TranslatedStepUnclosed(c: Cursor)
    requires |c.rest| > StartTranslateLen && c.rest[0] == '_' && c.rest[1] == '(' && IsQuote(c.rest[2])
    requires forall j :: 3 <= j < |c.rest| && c.rest[j] == c.rest[2] ==> !EscapedBody(c.rest[3..j], c.rest[2])
    ensures TranslatedStep(c) == Pulled(Err(IncompleteString(Span(c.byte + 2, |c.rest| - 2))), Cursor(c.byte, []))
  {
    var q := c.rest[2];
    var inner := c.rest[2..];
    forall k | 1 <= k < |inner| && inner[k] == q
      ensures !EscapedBody(inner[1..k], q)
    {
      InnerText(c, k + 2);
    }
    assert ScanText(inner, q, 1) == None;
    assert Common.LexText(c.byte + 2, inner, q) == Err(IncompleteString(Span(c.byte + 2, |inner|)));
  }

  /** The quoted text inside `_(`…: it closes at `j`. */
  lemma InnerClosed(c: Cursor, j: nat, l: Lexed)
    requires |c.rest| > StartTranslateLen && IsQuote(c.rest[2])
    requires 3 <= j < |c.rest| && c.rest[j] == c.rest[2] && EscapedBody(c.rest[3..j], c.rest[2])
    requires l == Lexed(Span(c.byte + 2, j - 1), c.byte + j + 1, c.rest[j + 1..])
    ensures Common.LexText(c.byte + 2, c.rest[2..], c.rest[2]) == Ok(l)
  {
    var q := c.rest[2];
    var inner := c.rest[2..];
    InnerText(c, j);
    assert ScanText(inner, q, 1) == Some(j - 2);
  }

  lemma TranslatedStepClosed(c: Cursor, j: nat)
    requires |c.rest| > StartTranslateLen && c.rest[0] == '_' && c.rest[1] == '(' && IsQuote(c.rest[2])
    requires 3 <= j < |c.rest| && c.rest[j] == c.rest[2] && EscapedBody(c.rest[3..j], c.rest[2])
    ensures TranslatedStep(c) ==
              if j + 1 < |c.rest| && c.rest[j + 1] == ')' then
                Pulled(Ok(IfConditionToken(Span(c.byte, j + 2), Atom(TranslatedText))), Skip(c, j + 2))
              else
                Pulled(Err(IncompleteTranslatedString(Span(c.byte, j + 1))), Cursor(c.byte, []))
  {
    var l := Lexed(Span(c.byte + 2, j - 1), c.byte + j + 1, c.rest[j + 1..]);
    InnerClosed(c, j, l);
    if j + 1 < |c.rest| && c.rest[j + 1] == ')' {
      assert l.rest[1..] == c.rest[j + 2..];
      assert Common.LexTranslated(c.byte, c.rest) == Ok(Lexed(Span(c.byte, j + 2), c.byte + j + 2, c.rest[j + 2..]));
    } else {
      assert Common.LexTranslated(c.byte, c.rest) == Err(IncompleteTranslatedString(Span(c.byte, j + 1)));
    }
  }

  /** `s` is the word `first`, a non-empty run of whitespace, and the word `second`. */
  predicate TwoWords(s: seq<char>, first: seq<char>, second: seq<char>) {
    && |first| + |second| < |s|
    && s[..|first|] == first && s[|s| - |second|..] == second
    && forall i :: |first| <= i < |s| - |second| ==> IsWhitespace(s[i])
  }

  /** The keyword text of an operator; for the two-word operators, the first word. */
  function KeywordText(op: IfConditionOperator): seq<char> {
    match op
    case And => "and"
    case Or => "or"
    case Equal => "=="
    case NotEqual => "!="
    case LessThan => "<"
    case GreaterThan => ">"
    case LessThanEqual => "<="
    case GreaterThanEqual => ">="
    case In => "in"
    case NotIn => "not"
    case Is => "is"
    case IsNot => "is"
  }

  /** The one-word keyword table and the keyword texts agree. */
  lemma SingleWordOperatorsText(word: seq<char>)
    requires word in SingleWordOperators
    ensures KeywordText(SingleWordOperators[word]) == word
    ensures SingleWordOperators[word] != NotIn && SingleWordOperators[word] != IsNot
  {
  }

  /** The text an operator token spans. */
  predicate OperatorText(op: IfConditionOperator, s: seq<char>) {
    match op
    case NotIn => TwoWords(s, "not", "in")
    case IsNot => TwoWords(s, "is", "not")
    case _ => s == KeywordText(op)
  }

  /** `s` is a quoted text whose escaped body is `body`. */
  predicate TextShape(s: seq<char>, body: seq<char>) {
    |s| >= 2 * QuoteLen && IsQuote(s[0]) && s[|s| - 1] == s[0] && EscapedBody(body, s[0])
  }

  /** `s` is `_(`, a quoted text whose escaped body is `body`, and `)`. */
  predicate TranslatedShape(s: seq<char>, body: seq<char>) {
    && |s| >= StartTranslateLen + 2 * QuoteLen + EndTranslateLen
    && s[0] == '_' && s[1] == '(' && IsQuote(s[2]) && s[|s| - 2] == s[2] && s[|s| - 1] == ')'
    && EscapedBody(body, s[2])
  }

  /**
   * What a token spans in the template: a keyword its own text; a variable
   * no whitespace; a number digits, `.` and `-`; a text an escaped body
   * between matching quotes; a translated text that inside `_(` and `)`.
   * The content span of a quoted kind is exactly its escaped body.
   */
  predicate Shaped(template: seq<char>, t: IfConditionToken) {
    && ValidSpan(template, t.at) && WellFormed(t)
    && var s := Content(template, t.at);
       match t.tokenType
       case Not => s == "not"
       case Operator(op) => OperatorText(op, s)
       case Atom(Variable) => forall i :: 0 <= i < |s| ==> !IsWhitespace(s[i])
       case Atom(Numeric) => 0 < |s| && forall i :: 0 <= i < |s| ==> IsNumericChar(s[i])
       case Atom(Text) => TextShape(s, Content(template, ContentAt(t)))
       case Atom(TranslatedText) => TranslatedShape(s, Content(template, ContentAt(t)))
  }

  /** `c` reads the template from its offset up to the end of its rest. */
  predicate ReadsTemplate(template: seq<char>, c: Cursor) {
    c.End() <= |template| && c.rest == template[c.byte..c.End()]
  }

  /** A span at the cursor covers the first characters of the rest. */
  lemma ContentAtCursor(template: seq<char>, c: Cursor, at: Span)
    requires ReadsTemplate(template, c) && c.byte <= at.start && at.End() <= c.End()
    ensures ValidSpan(template, at)
    ensures Content(template, at) == c.rest[at.start - c.byte..at.End() - c.byte]
  {
    SliceOfSlice(template, c.byte, |c.rest|, at.start - c.byte, at.len);
  }

  /** A text atom spans an escaped body between matching quotes. */
  lemma TextShaped(template: seq<char>, c: Cursor, q: char)
    requires ReadsTemplate(template, c) && c.rest != [] && c.rest[0] == q && IsQuote(q)
    requires TextStep(c, q).item.Ok?
    ensures Shaped(template, TextStep(c, q).item.value)
  {
    var r := Common.LexText(c.byte, c.rest, q);
    assert r.Ok?;
    var n := r.value.at.len;
    var s := c.rest[..n];
    assert s[0] == q && s[n - 1] == c.rest[n - 1];
    assert TextShape(s, c.rest[1..n - 1]);
    TextTokenShaped(template, c, r.value.at);
    assert TextStep(c, q).item.value == IfConditionToken(r.value.at, Atom(Text));
  }

  /** A text token at the cursor over a quoted escaped body has that shape in the template. */
  lemma TextTokenShaped(template: seq<char>, c: Cursor, at: Span)
    requires ReadsTemplate(template, c) && at.start == c.byte
    requires 2 * QuoteLen <= at.len <= |c.rest| && TextShape(c.rest[..at.len], c.rest[1..at.len - 1])
    ensures Shaped(template, IfConditionToken(at, Atom(Text)))
  {
    var t := IfConditionToken(at, Atom(Text));
    var n := at.len;
    ContentAtCursor(template, c, at);
    ContentAtCursor(template, c, ContentAt(t));
    assert Content(template, at) == c.rest[..n];
    assert Content(template, ContentAt(t)) == c.rest[1..n - 1];
  }

  /** A translated text atom spans `_(`, an escaped body between matching quotes, and `)`. */
  lemma TranslatedShaped(template: seq<char>, c: Cursor)
    requires ReadsTemplate(template, c) && |c.rest| >= StartTranslateLen && c.rest[0] == '_' && c.rest[1] == '('
    requires TranslatedStep(c).item.Ok?
    ensures Shaped(template, TranslatedStep(c).item.value)
  {
    var r := Common.LexTranslated(c.byte, c.rest);
    assert r.Ok?;
    TranslatedLexedShape(c.byte, c.rest, r.value);
    TranslatedTokenShaped(template, c, r.value.at);
    assert TranslatedStep(c).item.value == IfConditionToken(r.value.at, Atom(TranslatedText));
  }

  /** What the translated sub-lexer accepts is `_(`, a quoted escaped body and `)`. */
  lemma TranslatedLexedShape(byte: nat, rest: seq<char>, l: Lexed)
    requires |rest| >= StartTranslateLen && rest[0] == '_' && rest[1] == '('
    requires Common.LexTranslated(byte, rest) == Ok(l)
    ensures l.at.start == byte && StartTranslateLen + 2 * QuoteLen + EndTranslateLen <= l.at.len <= |rest|
    ensures TranslatedShape(rest[..l.at.len], rest[3..l.at.len - 2])
  {
    var n := l.at.len;
    var s := rest[..n];
    assert s[0] == '_' && s[1] == '(' && s[2] == rest[2] && s[n - 2] == rest[n - 2] && s[n - 1] == rest[n - 1];
  }

  /** A translated text token at the cursor over `_(`, a quoted escaped body and `)` has that shape in the template. */
  lemma TranslatedTokenShaped(template: seq<char>, c: Cursor, at: Span)
    requires ReadsTemplate(template, c) && at.start == c.byte
    requires StartTranslateLen + 2 * QuoteLen + EndTranslateLen <= at.len <= |c.rest|
    requires TranslatedShape(c.rest[..at.len], c.rest[3..at.len - 2])
    ensures Shaped(template, IfConditionToken(at, Atom(TranslatedText)))
  {
    var t := IfConditionToken(at, Atom(TranslatedText));
    var n := at.len;
    ContentAtCursor(template, c, at);
    ContentAtCursor(template, c, ContentAt(t));
    assert Content(template, at) == c.rest[..n];
    assert Content(template, ContentAt(t)) == c.rest[3..n - 2];
  }

  /** A numeric atom spans a non-empty run of digits, `.` and `-`. */
  lemma NumericShaped(template: seq<char>, c: Cursor)
    requires ReadsTemplate(template, c) && c.rest != [] && IsNumericChar(c.rest[0])
    ensures Shaped(template, NumericStep(c).item.value)
  {
    var t := NumericStep(c).item.value;
    ContentAtCursor(template, c, t.at);
    assert Content(template, t.at) == c.rest[..t.at.len];
  }

  /** A variable atom spans no whitespace. */
  lemma VariableShaped(template: seq<char>, c: Cursor)
    requires ReadsTemplate(template, c) && c.rest != []
    ensures Shaped(template, VariableStep(c).item.value)
  {
    var t := VariableStep(c).item.value;
    ContentAtCursor(template, c, t.at);
    assert Content(template, t.at) == c.rest[..t.at.len];
  }

  /** Every atom the sub-lexers accept has the shape of its kind. */
  lemma AtomShaped(template: seq<char>, c: Cursor)
    requires ReadsTemplate(template, c) && c.rest != [] && LexAtom(c).item.Ok?
    ensures Shaped(template, LexAtom(c).item.value)
  {
    var first := c.rest[0];
    if first == '_' && |c.rest| >= StartTranslateLen && c.rest[1] == '(' {
      TranslatedShaped(template, c);
    } else if first == '"' || first == '\'' {
      TextShaped(template, c, first);
    } else if '0' <= first <= '9' || first == '-' {
      NumericShaped(template, c);
    } else {
      VariableShaped(template, c);
    }
  }

  /** A word of `k` characters, `ws` whitespace characters and a word of `m` characters make two words. */
  lemma TwoWordsAt(rest: seq<char>, k: nat, ws: nat, m: nat)
    requires 0 < ws && k + ws + m <= |rest|
    requires forall i :: k <= i < k + ws ==> IsWhitespace(rest[i])
    ensures TwoWords(rest[..k + ws + m], rest[..k], rest[k + ws..k + ws + m])
  {
    var s := rest[..k + ws + m];
    assert s[..k] == rest[..k];
    assert s[k + ws..] == rest[k + ws..k + ws + m];
  }

  /**
   * When the first word of `rest` has `k` characters, the whitespace after
   * it and the following word are the peeked ones.
   */
  lemma PeekedAfterWord(rest: seq<char>, k: nat)
    requires k == NextWhitespace(rest) && k < |rest|
    ensures var ws, len := PeekWord(rest, k).0, PeekWord(rest, k).1;
            && 0 < ws
            && (forall i :: k <= i < k + ws ==> IsWhitespace(rest[i]))
            && rest[k + ws..k + ws + len] == FirstWord(rest[k..][ws..])
  {
    var after := rest[k..];
    var ws := NextNonWhitespace(after);
    PeekedWord(rest, k);
    assert after[0] == rest[k];
    forall i | k <= i < k + ws
      ensures IsWhitespace(rest[i])
    {
      assert rest[i] == after[i - k];
    }
  }

  /** The token a keyword match makes at the cursor. */
  function KeywordToken(c: Cursor, m: (IfConditionTokenType, nat)): IfConditionToken {
    IfConditionToken(Span(c.byte, m.1), m.0)
  }

  /** A one-word operator keyword spans its own text. */
  lemma SingleWordShaped(template: seq<char>, c: Cursor)
    requires ReadsTemplate(template, c) && c.rest != [] && FirstWord(c.rest) in SingleWordOperators
    ensures var m := MatchKeyword(c.rest, NextWhitespace(c.rest));
            m.Some? && Shaped(template, KeywordToken(c, m.value))
  {
    var word := FirstWord(c.rest);
    var n := NextWhitespace(c.rest);
    MatchSingleWord(c.rest, n);
    SingleWordOperatorsText(word);
    ContentAtCursor(template, c, Span(c.byte, n));
    assert Content(template, Span(c.byte, n)) == word;
  }

  /** Two words at the cursor: `first`, a run of `ws` whitespace characters and `second`. */
  predicate TwoWordsAtCursor(c: Cursor, first: seq<char>, ws: nat, second: seq<char>) {
    && 0 < ws && |first| + ws + |second| <= |c.rest|
    && c.rest[..|first|] == first && c.rest[|first| + ws..|first| + ws + |second|] == second
    && forall i :: |first| <= i < |first| + ws ==> IsWhitespace(c.rest[i])
  }

  /** The text the two words at the cursor span. */
  lemma TwoWordsContent(template: seq<char>, c: Cursor, first: seq<char>, ws: nat, second: seq<char>)
    requires ReadsTemplate(template, c) && TwoWordsAtCursor(c, first, ws, second)
    ensures var at := Span(c.byte, |first| + ws + |second|);
            ValidSpan(template, at) && TwoWords(Content(template, at), first, second)
  {
    var n := |first| + ws + |second|;
    ContentAtCursor(template, c, Span(c.byte, n));
    assert Content(template, Span(c.byte, n)) == c.rest[..n];
    TwoWordsAt(c.rest, |first|, ws, |second|);
  }

  /** A NotIn token over `not`, whitespace and `in` at the cursor spans those two words. */
  lemma NotInShapedAt(template: seq<char>, c: Cursor, ws: nat)
    requires ReadsTemplate(template, c) && TwoWordsAtCursor(c, "not", ws, "in")
    ensures Shaped(template, IfConditionToken(Span(c.byte, 3 + ws + 2), Operator(NotIn)))
  {
    TwoWordsContent(template, c, "not", ws, "in");
  }

  /** An IsNot token over `is`, whitespace and `not` at the cursor spans those two words. */
  lemma IsNotShapedAt(template: seq<char>, c: Cursor, ws: nat)
    requires ReadsTemplate(template, c) && TwoWordsAtCursor(c, "is", ws, "not")
    ensures Shaped(template, IfConditionToken(Span(c.byte, 2 + ws + 3), Operator(IsNot)))
  {
    TwoWordsContent(template, c, "is", ws, "not");
  }

  /** A one-word token whose text is `word` at the cursor spans that word. */
  lemma OneWordShapedAt(template: seq<char>, c: Cursor, tokenType: IfConditionTokenType, word: seq<char>)
    requires (tokenType == Not && word == "not") || (tokenType == Operator(Is) && word == "is")
    requires ReadsTemplate(template, c) && |word| <= |c.rest| && c.rest[..|word|] == word
    ensures Shaped(template, IfConditionToken(Span(c.byte, |word|), tokenType))
  {
    var t := IfConditionToken(Span(c.byte, |word|), tokenType);
    ContentAtCursor(template, c, t.at);
    var s := Content(template, t.at);
    assert s == c.rest[..|word|];
    assert WellFormed(t);
  }

  lemma NotThenInShaped(template: seq<char>, c: Cursor, ws: nat, len: nat)
    requires ReadsTemplate(template, c) && NextWhitespace(c.rest) == 3 && 3 <= |c.rest| && c.rest[..3] == "not"
    requires PeekWord(c.rest, 3) == (ws, len) && c.rest[3 + ws..3 + ws + len] == "in"
    ensures Shaped(template, IfConditionToken(Span(c.byte, 3 + ws + len), Operator(NotIn)))
  {
    assert len == 2 by { assert |c.rest[3 + ws..3 + ws + len]| == 2; }
    PeekedAfterWord(c.rest, 3);
    assert TwoWordsAtCursor(c, "not", ws, "in");
    NotInShapedAt(template, c, ws);
  }

  /** A `not` token spans `not`, a NotIn token `not`, whitespace and `in`. */
  lemma NotShaped(template: seq<char>, c: Cursor)
    requires ReadsTemplate(template, c) && c.rest != [] && FirstWord(c.rest) == "not"
    ensures var m := MatchKeyword(c.rest, NextWhitespace(c.rest));
            m.Some? && Shaped(template, KeywordToken(c, m.value))
  {
    assert NextWhitespace(c.rest) == 3 by { assert |c.rest[..NextWhitespace(c.rest)]| == 3; }
    var ws, len := PeekWord(c.rest, 3).0, PeekWord(c.rest, 3).1;
    MatchNot(c.rest, 3, ws, len);
    var m := MatchKeyword(c.rest, 3);
    if c.rest[3 + ws..3 + ws + len] == "in" {
      assert m == Some((Operator(NotIn), 3 + ws + len));
      NotThenInShaped(template, c, ws, len);
      assert KeywordToken(c, m.value) == IfConditionToken(Span(c.byte, 3 + ws + len), Operator(NotIn));
    } else {
      assert m == Some((Not, 3));
      OneWordShapedAt(template, c, Not, "not");
      assert KeywordToken(c, m.value) == IfConditionToken(Span(c.byte, |"not"|), Not);
    }
  }

  lemma IsThenNotShaped(template: seq<char>, c: Cursor, ws: nat, len: nat)
    requires ReadsTemplate(template, c) && NextWhitespace(c.rest) == 2 && 2 <= |c.rest| && c.rest[..2] == "is"
    requires PeekWord(c.rest, 2) == (ws, len) && c.rest[2 + ws..2 + ws + len] == "not"
    ensures Shaped(template, IfConditionToken(Span(c.byte, 2 + ws + len), Operator(IsNot)))
  {
    assert len == 3 by { assert |c.rest[2 + ws..2 + ws + len]| == 3; }
    PeekedAfterWord(c.rest, 2);
    assert TwoWordsAtCursor(c, "is", ws, "not");
    IsNotShapedAt(template, c, ws);
  }

  /** An error is the last item of the stream: nothing is yielded after it. */
  /** An `is` token spans `is`, an IsNot token `is`, whitespace and `not`. */
  lemma IsShaped(template: seq<char>, c: Cursor)
    requires ReadsTemplate(template, c) && c.rest != [] && FirstWord(c.rest) == "is"
    ensures var m := MatchKeyword(c.rest, NextWhitespace(c.rest));
            m.Some? && Shaped(template, KeywordToken(c, m.value))
  {
    assert NextWhitespace(c.rest) == 2 by { assert |c.rest[..NextWhitespace(c.rest)]| == 2; }
    var ws, len := PeekWord(c.rest, 2).0, PeekWord(c.rest, 2).1;
    MatchIs(c.rest, 2, ws, len);
    var m := MatchKeyword(c.rest, 2);
    if c.rest[2 + ws..2 + ws + len] == "not" {
      assert m == Some((Operator(IsNot), 2 + ws + len));
      IsThenNotShaped(template, c, ws, len);
      assert KeywordToken(c, m.value) == IfConditionToken(Span(c.byte, 2 + ws + len), Operator(IsNot));
    } else {
      assert m == Some((Operator(Is), 2));
      OneWordShapedAt(template, c, Operator(Is), "is");
      assert KeywordToken(c, m.value) == IfConditionToken(Span(c.byte, |"is"|), Operator(Is));
    }
  }

  /** One pull yields a token of the right shape. */
  lemma StepShaped(template: seq<char>, c: Cursor)
    requires ReadsTemplate(template, c) && c.rest != []
    ensures Step(c).value.item.Ok? ==> Shaped(template, Step(c).value.item.value)
  {
    var word := FirstWord(c.rest);
    var m := MatchKeyword(c.rest, NextWhitespace(c.rest));
    if word in Keywords {
      if word in SingleWordOperators {
        SingleWordShaped(template, c);
      } else if word == "not" {
        NotShaped(template, c);
      } else {
        IsShaped(template, c);
      }
      StepOnKeyword(c, m.value.0, m.value.1);
    } else {
      NonKeywordIsCondition(c);
      var p := LexConditionStep(c);
      if p.item.Ok? {
        assert LexAtom(c).item == p.item;
        AtomShaped(template, c);
      }
    }
  }

  /** The cursor one pull leaves behind still reads the template. */
  lemma StepKeepsTemplate(template: seq<char>, c: Cursor)
    requires ReadsTemplate(template, c) && c.rest != []
    ensures ReadsTemplate(template, Step(c).value.next)
  {
    PullKeepsTemplate(template, c, Step(c).value);
  }

  /** Any pull that advances the cursor leaves it reading the template. */
  lemma PullKeepsTemplate(template: seq<char>, c: Cursor, p: Pulled)
    requires ReadsTemplate(template, c) && PullAdvances(c, p)
    ensures ReadsTemplate(template, p.next)
  {
    if p.item.Ok? {
      ConsumedKeepsSlice(template, c.End(), c, p.next);
    } else {
      assert p.next.rest == [];
    }
  }

  /** Every token the lexer yields has the shape of its kind in the template. */
  lemma {:induction false} TokensShaped(template: seq<char>, c: Cursor)
    requires ReadsTemplate(template, c)
    ensures forall i :: 0 <= i < |Tokenize(c)| && Tokenize(c)[i].Ok? ==> Shaped(template, Tokenize(c)[i].value)
    decreases |c.rest|
  {
    if c.rest != [] {
      var p := Step(c).value;
      TokenizeUnfold(c);
      StepShaped(template, c);
      StepKeepsTemplate(template, c);
      TokensShaped(template, p.next);
      var items, tail := Tokenize(c), Tokenize(p.next);
      forall i | 0 <= i < |items| && items[i].Ok?
        ensures Shaped(template, items[i].value)
      {
        if i > 0 {
          assert items[i] == tail[i - 1];
        }
      }
    }
  }

  /** Every token of a tag's argument has the shape of its kind in the template. */
  lemma TagTokensShaped(template: seq<char>, parts: TagParts)
    requires ValidSpan(template, parts.at)
    ensures var items := TokenizeTag(template, parts);
            forall i :: 0 <= i < |items| && items[i].Ok? ==> Shaped(template, items[i].value)
  {
    TokensShaped(template, Cursor(parts.at.start, Content(template, parts.at)));
  }
}
