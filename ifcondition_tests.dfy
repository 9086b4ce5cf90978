/**
 * The unit tests of the `{% if %}` lexer as concrete lemmas: each names the
 * template, the tag-part span, and the exact items collected from the lexer.
 */
module IfConditionTests {
  import opened Wrappers
  import opened Common
  import opened IfCondition
  import opened IfConditionLemmas

  /** A run of numeric characters, then a character that is not one or the end: the run is the numeric run. */
  lemma {:induction false} NumericThen(w: seq<char>, tail: seq<char>)
    requires (forall i :: 0 <= i < |w| ==> IsNumericChar(w[i])) && (tail == [] || !IsNumericChar(tail[0]))
    ensures NumericRun(w + tail) == |w|
    decreases |w|
  {
    if w != [] {
      NumericThen(w[1..], tail);
      assert (w + tail)[1..] == w[1..] + tail;
    }
  }

  /** After a word and one space, the token's skip lands on the next word. */
  lemma SkipOneSpace(byte: nat, w: seq<char>, next: seq<char>)
    requires next == [] || !IsWhitespace(next[0])
    ensures SkipToken(Cursor(byte, w + " " + next), |w|) == Cursor(byte + |w| + 1, next)
  {
    var c := Cursor(byte, w + " " + next);
    assert c.rest[|w|..] == " " + next;
    assert NextNonWhitespace(" " + next) == 1 by {
      assert (" " + next)[1..] == next;
    }
    assert c.rest[|w| + 1..] == next;
  }

  /** A variable word followed by one space and the next word. */
  lemma VariableThenSpace(byte: nat, w: seq<char>, next: seq<char>)
    requires w != [] && NoWhitespace(w) && w !in Keywords && OpensVariable(w + " " + next)
    requires next == [] || !IsWhitespace(next[0])
    ensures Step(Cursor(byte, w + " " + next)) ==
              Some(Pulled(Ok(IfConditionToken(Span(byte, |w|), Atom(Variable))), Cursor(byte + |w| + 1, next)))
  {
    var c := Cursor(byte, w + " " + next);
    WordThen(w, " " + next);
    assert w + (" " + next) == c.rest;
    NonKeywordIsCondition(c);
    VariableCondition(c);
    SkipOneSpace(byte, w, next);
  }

  /** A variable word that ends the text. */
  lemma VariableAtEnd(byte: nat, w: seq<char>)
    requires w != [] && NoWhitespace(w) && w !in Keywords && OpensVariable(w)
    ensures Tokenize(Cursor(byte, w)) == [Ok(IfConditionToken(Span(byte, |w|), Atom(Variable)))]
  {
    var c := Cursor(byte, w);
    WordThen(w, []);
    assert w + [] == w;
    NonKeywordIsCondition(c);
    VariableCondition(c);
    TokenizeUnfold(c);
    assert SkipToken(c, |w|) == Cursor(byte + |w|, []);
  }

  /** A one-word operator keyword followed by one space and the next word. */
  lemma KeywordThenSpace(byte: nat, w: seq<char>, next: seq<char>)
    requires w in SingleWordOperators && NoWhitespace(w) && next != [] && !IsWhitespace(next[0])
    ensures Step(Cursor(byte, w + " " + next)) ==
              Some(Pulled(Ok(IfConditionToken(Span(byte, |w|), Operator(SingleWordOperators[w]))),
                          Cursor(byte + |w| + 1, next)))
  {
    var c := Cursor(byte, w + " " + next);
    WordThen(w, " " + next);
    assert w + (" " + next) == c.rest;
    SingleWordKeyword(c);
    SkipOneSpace(byte, w, next);
  }

  /** A one-word operator keyword that ends the text. */
  lemma KeywordAtEnd(byte: nat, w: seq<char>, len: nat, op: IfConditionOperator)
    requires w in SingleWordOperators && SingleWordOperators[w] == op && len == |w| && NoWhitespace(w)
    ensures Tokenize(Cursor(byte, w)) == [Ok(IfConditionToken(Span(byte, len), Operator(op)))]
  {
    var c := Cursor(byte, w);
    WordThen(w, []);
    assert w + [] == w;
    SingleWordKeyword(c);
    TokenizeUnfold(c);
    assert SkipToken(c, |w|) == Cursor(byte + |w|, []);
  }

  /** A tag whose whole argument, at offset 6, is the one-word operator keyword `w`. */
  lemma OperatorAlone(template: seq<char>, w: seq<char>, len: nat, op: IfConditionOperator)
    requires ValidSpan(template, Span(6, len)) && Content(template, Span(6, len)) == w
    requires w in SingleWordOperators && SingleWordOperators[w] == op && len == |w| && NoWhitespace(w)
    ensures TokenizeTag(template, TagParts(Span(6, len))) == [Ok(IfConditionToken(Span(6, len), Operator(op)))]
  {
    TagReads(template, TagParts(Span(6, len)), w);
    KeywordAtEnd(6, w, len, op);
  }

  /** A number followed by one space and the next word. */
  lemma NumericThenSpace(byte: nat, w: seq<char>, next: seq<char>)
    requires w != [] && ('0' <= w[0] <= '9' || w[0] == '-') && (forall i :: 0 <= i < |w| ==> IsNumericChar(w[i]))
    requires w !in Keywords && next != [] && !IsWhitespace(next[0])
    ensures Step(Cursor(byte, w + " " + next)) ==
              Some(Pulled(Ok(IfConditionToken(Span(byte, |w|), Atom(Numeric))), Cursor(byte + |w| + 1, next)))
  {
    var c := Cursor(byte, w + " " + next);
    assert NoWhitespace(w);
    WordThen(w, " " + next);
    NumericThen(w, " " + next);
    assert w + (" " + next) == c.rest;
    NonKeywordIsCondition(c);
    NumericAtom(c);
    var token := IfConditionToken(Span(byte, |w|), Atom(Numeric));
    RemainderCheck(c, token);
    assert c.rest[|w|..] == " " + next;
    SkipOneSpace(byte, w, next);
  }

  /** A number that ends the text. */
  lemma NumericAtEnd(byte: nat, w: seq<char>)
    requires w != [] && ('0' <= w[0] <= '9' || w[0] == '-') && (forall i :: 0 <= i < |w| ==> IsNumericChar(w[i]))
    requires w !in Keywords
    ensures Tokenize(Cursor(byte, w)) == [Ok(IfConditionToken(Span(byte, |w|), Atom(Numeric)))]
  {
    var c := Cursor(byte, w);
    assert NoWhitespace(w);
    WordThen(w, []);
    NumericThen(w, []);
    assert w + [] == w;
    NonKeywordIsCondition(c);
    NumericAtom(c);
    var token := IfConditionToken(Span(byte, |w|), Atom(Numeric));
    RemainderCheck(c, token);
    assert c.rest[|w|..] == [];
    TokenizeUnfold(c);
    assert SkipToken(c, |w|) == Cursor(byte + |w|, []);
  }

  /** An atom that covers the whole text, whose first word is no keyword, is the one item. */
  lemma AtomAtEnd(c: Cursor, token: IfConditionToken)
    requires c.rest != [] && FirstWord(c.rest) !in Keywords
    requires LexAtom(c).item == Ok(token) && token.at.len == |c.rest|
    ensures Tokenize(c) == [Ok(token)]
  {
    NonKeywordIsCondition(c);
    RemainderCheck(c, token);
    assert c.rest[|c.rest|..] == [];
    TokenizeUnfold(c);
    assert SkipToken(c, |c.rest|).rest == [];
  }

  /** An atom that the sub-lexer rejects is the one item. */
  lemma AtomErrorAtEnd(c: Cursor, e: LexerError)
    requires c.rest != [] && FirstWord(c.rest) !in Keywords
    requires LexAtom(c).item == Err(e)
    ensures Tokenize(c) == [Err(e)]
  {
    NonKeywordIsCondition(c);
    TokenizeUnfold(c);
  }

  /** A tag whose argument is `text` lexes as a cursor over `text` at the argument's start. */
  lemma TagReads(template: seq<char>, parts: TagParts, text: seq<char>)
    requires ValidSpan(template, parts.at) && Content(template, parts.at) == text
    ensures TokenizeTag(template, parts) == Tokenize(Cursor(parts.at.start, text))
  {
  }

  /** A text without whitespace longer than any keyword: its first word is no keyword. */
  lemma LongWord(w: seq<char>)
    requires NoWhitespace(w) && |w| > 3
    ensures FirstWord(w) !in Keywords
  {
    Word(w);
    KeywordsAreShort(w);
  }

  /** An atom filling a whole text without whitespace, longer than any keyword, is the one item. */
  lemma WholeAtom(c: Cursor, token: IfConditionToken)
    requires c.rest != [] && NoWhitespace(c.rest) && |c.rest| > 3
    requires LexAtom(c).item == Ok(token) && token.at.len == |c.rest|
    ensures Tokenize(c) == [Ok(token)]
  {
    LongWord(c.rest);
    AtomAtEnd(c, token);
  }

  /** An atom the sub-lexer rejects, in a text without whitespace longer than any keyword, is the one item. */
  lemma WholeAtomError(c: Cursor, e: LexerError)
    requires c.rest != [] && NoWhitespace(c.rest) && |c.rest| > 3
    requires LexAtom(c).item == Err(e)
    ensures Tokenize(c) == [Err(e)]
  {
    LongWord(c.rest);
    AtomErrorAtEnd(c, e);
  }

  /** Every keyword is at most three characters long. */
  lemma KeywordsAreShort(w: seq<char>)
    requires |w| > 3
    ensures w !in Keywords
  {
  }

  /** A body without backslashes and without the quote is an escaped body. */
  lemma {:induction false} PlainBody(body: seq<char>, q: char)
    requires forall i :: 0 <= i < |body| ==> body[i] != '\\' && body[i] != q
    ensures EscapedBody(body, q)
    decreases |body|
  {
    if body != [] {
      PlainBody(body[1..], q);
    }
  }

  /** A text without whitespace is its own first word. */
  lemma Word(w: seq<char>)
    requires NoWhitespace(w)
    ensures NextWhitespace(w) == |w| && FirstWord(w) == w
  {
    WordThen(w, []);
    assert w + [] == w;
  }

  // src/lex/ifcondition.rs:259-271
  lemma LexVariable()
    ensures TokenizeTag("{% if foo %}", TagParts(Span(6, 3)))
            == [Ok(IfConditionToken(Span(6, 3), Atom(Variable)))]
  {
    assert Content("{% if foo %}", Span(6, 3)) == "foo";
    assert NoWhitespace("foo");
    VariableAtEnd(6, "foo");
  }

  // src/lex/ifcondition.rs:273-285
  lemma LexVariableLeadingUnderscore()
    ensures TokenizeTag("{% if _foo %}", TagParts(Span(6, 4)))
            == [Ok(IfConditionToken(Span(6, 4), Atom(Variable)))]
  {
    assert Content("{% if _foo %}", Span(6, 4)) == "_foo";
    assert NoWhitespace("_foo");
    VariableAtEnd(6, "_foo");
  }

  // src/lex/ifcondition.rs:287-299
  lemma LexNumeric()
    ensures TokenizeTag("{% if 5.3 %}", TagParts(Span(6, 3)))
            == [Ok(IfConditionToken(Span(6, 3), Atom(Numeric)))]
  {
    assert Content("{% if 5.3 %}", Span(6, 3)) == "5.3";
    NumericAtEnd(6, "5.3");
  }

  /** A body with neither a backslash nor the quote `q`. */
  predicate PlainIn(body: seq<char>, q: char) {
    forall i :: 0 <= i < |body| ==> body[i] != '\\' && body[i] != q
  }

  /** A quote, a plain body and the same quote at `j` is a text atom up to and including `j`. */
  lemma QuotedAtom(c: Cursor, j: nat)
    requires 1 <= j < |c.rest| && IsQuote(c.rest[0]) && c.rest[j] == c.rest[0]
    requires PlainIn(c.rest[1..j], c.rest[0])
    ensures LexAtom(c).item == Ok(IfConditionToken(Span(c.byte, j + 1), Atom(Text)))
  {
    PlainBody(c.rest[1..j], c.rest[0]);
    TextAtom(c);
  }

  /** `foo` quoted with `'` or `"`, alone. */
  lemma QuotedFoo(byte: nat, text: seq<char>)
    requires text == "'foo'" || text == "\"foo\""
    ensures Tokenize(Cursor(byte, text)) == [Ok(IfConditionToken(Span(byte, 5), Atom(Text)))]
  {
    var c := Cursor(byte, text);
    assert NoWhitespace(text) && PlainIn(text[1..4], text[0]);
    QuotedAtom(c, 4);
    WholeAtom(c, IfConditionToken(Span(byte, 5), Atom(Text)));
  }

  lemma SingleQuotedFoo()
    ensures Tokenize(Cursor(6, "'foo'")) == [Ok(IfConditionToken(Span(6, 5), Atom(Text)))]
  {
    QuotedFoo(6, "'foo'");
  }

  lemma DoubleQuotedFoo()
    ensures Tokenize(Cursor(6, "\"foo\"")) == [Ok(IfConditionToken(Span(6, 5), Atom(Text)))]
  {
    QuotedFoo(6, "\"foo\"");
  }

  // src/lex/ifcondition.rs:301-313
  lemma LexText()
    ensures TokenizeTag("{% if 'foo' %}", TagParts(Span(6, 5)))
            == [Ok(IfConditionToken(Span(6, 5), Atom(Text)))]
  {
    TagReads("{% if 'foo' %}", TagParts(Span(6, 5)), "'foo'");
    SingleQuotedFoo();
  }

  // src/lex/ifcondition.rs:315-327
  lemma LexTextDoubleQuotes()
    ensures TokenizeTag("{% if \"foo\" %}", TagParts(Span(6, 5)))
            == [Ok(IfConditionToken(Span(6, 5), Atom(Text)))]
  {
    TagReads("{% if \"foo\" %}", TagParts(Span(6, 5)), "\"foo\"");
    DoubleQuotedFoo();
  }

  /** `_(`, a quote, a plain body and the same quote at `j`, then `)`: a translated text atom up to the `)`. */
  lemma TranslatedQuotedAtom(c: Cursor, j: nat)
    requires 3 <= j && j + 1 < |c.rest| && c.rest[0] == '_' && c.rest[1] == '('
    requires IsQuote(c.rest[2]) && c.rest[j] == c.rest[2] && c.rest[j + 1] == ')'
    requires PlainIn(c.rest[3..j], c.rest[2])
    ensures LexAtom(c).item == Ok(IfConditionToken(Span(c.byte, j + 2), Atom(TranslatedText)))
  {
    PlainBody(c.rest[3..j], c.rest[2]);
    TranslatedClosed(c, j);
  }

  lemma TranslatedFoo()
    ensures Tokenize(Cursor(6, "_('foo')")) == [Ok(IfConditionToken(Span(6, 8), Atom(TranslatedText)))]
  {
    var c := Cursor(6, "_('foo')");
    assert NoWhitespace(c.rest) && PlainIn(c.rest[3..6], '\'');
    TranslatedQuotedAtom(c, 6);
    WholeAtom(c, IfConditionToken(Span(6, 8), Atom(TranslatedText)));
  }

  // src/lex/ifcondition.rs:329-341
  lemma LexTranslated()
    ensures TokenizeTag("{% if _('foo') %}", TagParts(Span(6, 8)))
            == [Ok(IfConditionToken(Span(6, 8), Atom(TranslatedText)))]
  {
    TagReads("{% if _('foo') %}", TagParts(Span(6, 8)), "_('foo')");
    TranslatedFoo();
  }

  /** `_(`, a quote, a plain body and the same quote at the end: an incomplete translated string over all of it. */
  lemma UnclosedTranslatedAtom(c: Cursor)
    requires |c.rest| >= 4 && c.rest[0] == '_' && c.rest[1] == '('
    requires IsQuote(c.rest[2]) && c.rest[|c.rest| - 1] == c.rest[2]
    requires PlainIn(c.rest[3..|c.rest| - 1], c.rest[2])
    ensures LexAtom(c).item == Err(IncompleteTranslatedString(Span(c.byte, |c.rest|)))
  {
    PlainBody(c.rest[3..|c.rest| - 1], c.rest[2]);
    TranslatedClosed(c, |c.rest| - 1);
  }

  lemma UnclosedTranslatedFoo()
    ensures Tokenize(Cursor(6, "_('foo'")) == [Err(IncompleteTranslatedString(Span(6, 7)))]
  {
    var c := Cursor(6, "_('foo'");
    assert NoWhitespace(c.rest) && PlainIn(c.rest[3..6], '\'');
    UnclosedTranslatedAtom(c);
    WholeAtomError(c, IncompleteTranslatedString(Span(6, 7)));
  }

  // src/lex/ifcondition.rs:343-352
  lemma LexTranslatedError()
    ensures TokenizeTag("{% if _('foo' %}", TagParts(Span(6, 7)))
            == [Err(IncompleteTranslatedString(Span(6, 7)))]
  {
    TagReads("{% if _('foo' %}", TagParts(Span(6, 7)), "_('foo'");
    UnclosedTranslatedFoo();
  }

  // src/lex/ifcondition.rs:354-366
  lemma LexAnd()
    ensures TokenizeTag("{% if and %}", TagParts(Span(6, 3)))
            == [Ok(IfConditionToken(Span(6, 3), Operator(And)))]
  {
    assert Content("{% if and %}", Span(6, 3)) == "and";
    assert NoWhitespace("and") && "and" in SingleWordOperators && SingleWordOperators["and"] == And;
    OperatorAlone("{% if and %}", "and", 3, And);
  }

  // src/lex/ifcondition.rs:368-380
  lemma LexOr()
    ensures TokenizeTag("{% if or %}", TagParts(Span(6, 2)))
            == [Ok(IfConditionToken(Span(6, 2), Operator(Or)))]
  {
    assert Content("{% if or %}", Span(6, 2)) == "or";
    assert NoWhitespace("or") && "or" in SingleWordOperators && SingleWordOperators["or"] == Or;
    OperatorAlone("{% if or %}", "or", 2, Or);
  }

  // src/lex/ifcondition.rs:382-394
  lemma LexNot()
    ensures TokenizeTag("{% if not %}", TagParts(Span(6, 3)))
            == [Ok(IfConditionToken(Span(6, 3), Not))]
  {
    var c := Cursor(6, "not");
    assert Content("{% if not %}", Span(6, 3)) == c.rest;
    assert NoWhitespace(c.rest);
    Word(c.rest);
    NotKeyword(c);
    assert c.rest[3..] == [];
    TokenizeUnfold(c);
  }

  // src/lex/ifcondition.rs:396-408
  lemma LexEqual()
    ensures TokenizeTag("{% if == %}", TagParts(Span(6, 2)))
            == [Ok(IfConditionToken(Span(6, 2), Operator(Equal)))]
  {
    assert Content("{% if == %}", Span(6, 2)) == "==";
    assert NoWhitespace("==") && "==" in SingleWordOperators && SingleWordOperators["=="] == Equal;
    OperatorAlone("{% if == %}", "==", 2, Equal);
  }

  // src/lex/ifcondition.rs:410-422
  lemma LexNotEqual()
    ensures TokenizeTag("{% if != %}", TagParts(Span(6, 2)))
            == [Ok(IfConditionToken(Span(6, 2), Operator(NotEqual)))]
  {
    assert Content("{% if != %}", Span(6, 2)) == "!=";
    assert NoWhitespace("!=") && "!=" in SingleWordOperators && SingleWordOperators["!="] == NotEqual;
    OperatorAlone("{% if != %}", "!=", 2, NotEqual);
  }

  // src/lex/ifcondition.rs:424-436
  lemma LexLessThan()
    ensures TokenizeTag("{% if < %}", TagParts(Span(6, 1)))
            == [Ok(IfConditionToken(Span(6, 1), Operator(LessThan)))]
  {
    assert Content("{% if < %}", Span(6, 1)) == "<";
    assert NoWhitespace("<") && "<" in SingleWordOperators && SingleWordOperators["<"] == LessThan;
    OperatorAlone("{% if < %}", "<", 1, LessThan);
  }

  // src/lex/ifcondition.rs:438-450
  lemma LexGreaterThan()
    ensures TokenizeTag("{% if > %}", TagParts(Span(6, 1)))
            == [Ok(IfConditionToken(Span(6, 1), Operator(GreaterThan)))]
  {
    assert Content("{% if > %}", Span(6, 1)) == ">";
    assert NoWhitespace(">") && ">" in SingleWordOperators && SingleWordOperators[">"] == GreaterThan;
    OperatorAlone("{% if > %}", ">", 1, GreaterThan);
  }

  // src/lex/ifcondition.rs:452-464
  lemma LexLessEqual()
    ensures TokenizeTag("{% if <= %}", TagParts(Span(6, 2)))
            == [Ok(IfConditionToken(Span(6, 2), Operator(LessThanEqual)))]
  {
    assert Content("{% if <= %}", Span(6, 2)) == "<=";
    assert NoWhitespace("<=") && "<=" in SingleWordOperators && SingleWordOperators["<="] == LessThanEqual;
    OperatorAlone("{% if <= %}", "<=", 2, LessThanEqual);
  }

  // src/lex/ifcondition.rs:466-478
  lemma LexGreaterEqual()
    ensures TokenizeTag("{% if >= %}", TagParts(Span(6, 2)))
            == [Ok(IfConditionToken(Span(6, 2), Operator(GreaterThanEqual)))]
  {
    assert Content("{% if >= %}", Span(6, 2)) == ">=";
    assert NoWhitespace(">=") && ">=" in SingleWordOperators && SingleWordOperators[">="] == GreaterThanEqual;
    OperatorAlone("{% if >= %}", ">=", 2, GreaterThanEqual);
  }

  // src/lex/ifcondition.rs:480-492
  lemma LexIn()
    ensures TokenizeTag("{% if in %}", TagParts(Span(6, 2)))
            == [Ok(IfConditionToken(Span(6, 2), Operator(In)))]
  {
    assert Content("{% if in %}", Span(6, 2)) == "in";
    assert NoWhitespace("in") && "in" in SingleWordOperators && SingleWordOperators["in"] == In;
    OperatorAlone("{% if in %}", "in", 2, In);
  }

  /** The first word is `w`, then one space, then the word `v` and `tail`, which is empty or starts with whitespace. */
  lemma TwoWordsThen(c: Cursor, w: seq<char>, v: seq<char>, tail: seq<char>)
    requires NoWhitespace(w) && v != [] && NoWhitespace(v) && (tail == [] || IsWhitespace(tail[0]))
    requires c.rest == w + ([' '] + (v + tail))
    ensures FirstWord(c.rest) == w
    ensures var after := c.rest[|w|..];
            NextNonWhitespace(after) == 1 && FirstWord(after[1..]) == v && after[1..] == v + tail
  {
    WordThen(w, [' '] + (v + tail));
    var after := c.rest[|w|..];
    assert after == [' '] + (v + tail);
    assert after[1..] == v + tail;
    WordThen(v, tail);
  }

  /** After a token of `n` characters come `tail`, then `next`: the cursor after the token is at `next`. */
  lemma TwoWordSkip(c: Cursor, n: nat, tail: seq<char>, next: seq<char>, after: nat)
    requires n <= |c.rest| && c.rest[n..] == tail
    requires || (tail == [] && next == [] && after == c.byte + n)
             || (tail == [' '] + next && StartsWord(next) && after == c.byte + n + 1)
    ensures SkipToken(c, n) == Cursor(after, next)
  {
    if tail != [] {
      assert tail[1..] == next;
      assert NextNonWhitespace(tail) == 1;
      assert c.rest[n + 1..] == next;
    }
  }

  /** `not in` followed by one space and the next word, or by the end. */
  lemma NotInStep(c: Cursor, tail: seq<char>, next: seq<char>, after: nat)
    requires c.rest == "not" + ([' '] + ("in" + tail))
    requires || (tail == [] && next == [] && after == c.byte + 6)
             || (tail == [' '] + next && StartsWord(next) && after == c.byte + 7)
    ensures Step(c) == Some(Pulled(Ok(IfConditionToken(Span(c.byte, 6), Operator(NotIn))), Cursor(after, next)))
  {
    assert NoWhitespace("not") && NoWhitespace("in");
    TwoWordsThen(c, "not", "in", tail);
    NotKeyword(c);
    assert c.rest[6..] == tail;
    TwoWordSkip(c, 6, tail, next, after);
  }

  /** `is not` followed by one space and the next word, or by the end. */
  lemma IsNotStep(c: Cursor, tail: seq<char>, next: seq<char>, after: nat)
    requires c.rest == "is" + ([' '] + ("not" + tail))
    requires || (tail == [] && next == [] && after == c.byte + 6)
             || (tail == [' '] + next && StartsWord(next) && after == c.byte + 7)
    ensures Step(c) == Some(Pulled(Ok(IfConditionToken(Span(c.byte, 6), Operator(IsNot))), Cursor(after, next)))
  {
    assert NoWhitespace("is") && NoWhitespace("not");
    TwoWordsThen(c, "is", "not", tail);
    IsKeyword(c);
    assert c.rest[6..] == tail;
    TwoWordSkip(c, 6, tail, next, after);
  }

  /** A pull, then the items after it. */
  lemma StepThen(c: Cursor, p: Pulled, items: seq<Item>)
    requires Step(c) == Some(p) && Tokenize(p.next) == items
    ensures Tokenize(c) == [p.item] + items
  {
    TokenizeUnfold(c);
  }

  lemma NotInAlone()
    ensures Tokenize(Cursor(6, "not in")) == [Ok(IfConditionToken(Span(6, 6), Operator(NotIn)))]
  {
    var c := Cursor(6, "not in");
    NotInStep(c, [], [], 12);
    StepThen(c, Step(c).value, []);
  }

  // src/lex/ifcondition.rs:494-506
  lemma LexNotIn()
    ensures TokenizeTag("{% if not in %}", TagParts(Span(6, 6)))
            == [Ok(IfConditionToken(Span(6, 6), Operator(NotIn)))]
  {
    TagReads("{% if not in %}", TagParts(Span(6, 6)), "not in");
    NotInAlone();
  }

  // src/lex/ifcondition.rs:508-520
  lemma LexIs()
    ensures TokenizeTag("{% if is %}", TagParts(Span(6, 2)))
            == [Ok(IfConditionToken(Span(6, 2), Operator(Is)))]
  {
    var c := Cursor(6, "is");
    assert Content("{% if is %}", Span(6, 2)) == c.rest;
    assert NoWhitespace(c.rest);
    Word(c.rest);
    IsKeyword(c);
    assert c.rest[2..] == [];
    TokenizeUnfold(c);
  }

  lemma IsNotAlone()
    ensures Tokenize(Cursor(6, "is not")) == [Ok(IfConditionToken(Span(6, 6), Operator(IsNot)))]
  {
    var c := Cursor(6, "is not");
    IsNotStep(c, [], [], 12);
    StepThen(c, Step(c).value, []);
  }

  // src/lex/ifcondition.rs:522-534
  lemma LexIsNot()
    ensures TokenizeTag("{% if is not %}", TagParts(Span(6, 6)))
            == [Ok(IfConditionToken(Span(6, 6), Operator(IsNot)))]
  {
    TagReads("{% if is not %}", TagParts(Span(6, 6)), "is not");
    IsNotAlone();
  }

  /** A word a variable atom is lexed from: no whitespace, no keyword, and none of the other atoms' openings. */
  predicate VariableWord(w: seq<char>) {
    w != [] && NoWhitespace(w) && w !in Keywords && OpensVariable(w)
  }

  /** The text after a word and its one space starts with a non-whitespace character. */
  predicate StartsWord(next: seq<char>) {
    next != [] && !IsWhitespace(next[0])
  }

  /** A number atom's word: digits, `.` and `-`, starting with a digit, and no keyword. */
  predicate NumberWord(n: seq<char>) {
    n != [] && '0' <= n[0] <= '9' && (forall i :: 0 <= i < |n| ==> IsNumericChar(n[i])) && n !in Keywords
  }

  /** A variable word and one space: one token, then the stream of the text after the space at `after`. */
  lemma VariableBefore(byte: nat, w: seq<char>, after: nat, next: seq<char>)
    requires after == byte + |w| + 1 && VariableWord(w) && StartsWord(next)
    ensures Tokenize(Cursor(byte, w + " " + next)) ==
              [Ok(IfConditionToken(Span(byte, |w|), Atom(Variable)))] + Tokenize(Cursor(after, next))
  {
    assert Cursor(byte + |w| + 1, next) == Cursor(after, next);
    assert (w + " " + next)[0] == w[0];
    VariableThenSpace(byte, w, next);
    TokenizeUnfold(Cursor(byte, w + " " + next));
  }

  /** A one-word operator keyword of length `len` naming `op`, and one space. */
  lemma OperatorBefore(byte: nat, w: seq<char>, len: nat, op: IfConditionOperator, after: nat, next: seq<char>)
    requires w in SingleWordOperators && SingleWordOperators[w] == op && len == |w| && after == byte + len + 1
    requires NoWhitespace(w) && StartsWord(next)
    ensures Tokenize(Cursor(byte, w + " " + next)) ==
              [Ok(IfConditionToken(Span(byte, len), Operator(op)))] + Tokenize(Cursor(after, next))
  {
    assert Cursor(byte + |w| + 1, next) == Cursor(after, next);
    assert IfConditionToken(Span(byte, |w|), Operator(SingleWordOperators[w])) == IfConditionToken(Span(byte, len), Operator(op));
    KeywordThenSpace(byte, w, next);
    TokenizeUnfold(Cursor(byte, w + " " + next));
  }

  /** A number and one space. */
  lemma NumberBefore(byte: nat, w: seq<char>, after: nat, next: seq<char>)
    requires after == byte + |w| + 1 && NumberWord(w) && StartsWord(next)
    ensures Tokenize(Cursor(byte, w + " " + next)) ==
              [Ok(IfConditionToken(Span(byte, |w|), Atom(Numeric)))] + Tokenize(Cursor(after, next))
  {
    assert Cursor(byte + |w| + 1, next) == Cursor(after, next);
    NumericThenSpace(byte, w, next);
    TokenizeUnfold(Cursor(byte, w + " " + next));
  }

  /** `is not` and one space: the first pull. */
  lemma IsNotBeforeStep(byte: nat, after: nat, next: seq<char>)
    requires after == byte + 7 && StartsWord(next)
    ensures Step(Cursor(byte, "is" + " " + "not" + " " + next)) ==
              Some(Pulled(Ok(IfConditionToken(Span(byte, 6), Operator(IsNot))), Cursor(after, next)))
  {
    var c := Cursor(byte, "is" + " " + "not" + " " + next);
    assert c.rest == "is" + ([' '] + ("not" + ([' '] + next)));
    IsNotStep(c, [' '] + next, next, after);
  }

  /** A known first pull fixes the head of the stream. */
  lemma TokenizeStep(c: Cursor, p: Pulled)
    requires Step(c) == Some(p)
    ensures Tokenize(c) == [p.item] + Tokenize(p.next)
  {
  }

  /** `is not` and one space. */
  lemma IsNotBefore(byte: nat, after: nat, next: seq<char>)
    requires after == byte + 7 && StartsWord(next)
    ensures Tokenize(Cursor(byte, "is" + " " + "not" + " " + next)) ==
              [Ok(IfConditionToken(Span(byte, 6), Operator(IsNot)))] + Tokenize(Cursor(after, next))
  {
    IsNotBeforeStep(byte, after, next);
    TokenizeStep(Cursor(byte, "is" + " " + "not" + " " + next),
                 Pulled(Ok(IfConditionToken(Span(byte, 6), Operator(IsNot))), Cursor(after, next)));
  }

  /**
   * The condition `foo.bar|default:'spam' and count >= 1.5 or enabled is not
   * False`, with its variable words `v1` to `v4` and its number `n` left open.
   */
  predicate IsComplexText(text: seq<char>, v1: seq<char>, v2: seq<char>, n: seq<char>, v3: seq<char>, v4: seq<char>) {
    text == v1 + " " + ("and" + " " + (v2 + " " + (">=" + " " + (n + " " + ("or" + " " + (v3 + " " + ("is" + " " + "not" + " " + v4)))))))
  }

  /** The operator words of the condition. */
  lemma ComplexOperators()
    ensures NoWhitespace("and") && "and" in SingleWordOperators && SingleWordOperators["and"] == And
    ensures NoWhitespace(">=") && ">=" in SingleWordOperators && SingleWordOperators[">="] == GreaterThanEqual
    ensures NoWhitespace("or") && "or" in SingleWordOperators && SingleWordOperators["or"] == Or
  {
  }

  /**
   * Whatever the words, the condition lexes as the nine tokens, each starting
   * where the one before it and its space end.
   */
  lemma ComplexShape(byte: nat, text: seq<char>, v1: seq<char>, v2: seq<char>, n: seq<char>, v3: seq<char>, v4: seq<char>,
                     b1: nat, b2: nat, b3: nat, b4: nat, b5: nat, b6: nat, b7: nat, b8: nat)
    requires IsComplexText(text, v1, v2, n, v3, v4)
    requires VariableWord(v1) && VariableWord(v2) && VariableWord(v3) && VariableWord(v4) && NumberWord(n)
    requires b1 == byte + |v1| + 1 && b2 == b1 + 4 && b3 == b2 + |v2| + 1 && b4 == b3 + 3
    requires b5 == b4 + |n| + 1 && b6 == b5 + 3 && b7 == b6 + |v3| + 1 && b8 == b7 + 7
    ensures Tokenize(Cursor(byte, text)) ==
              [Ok(IfConditionToken(Span(byte, |v1|), Atom(Variable))),
               Ok(IfConditionToken(Span(b1, 3), Operator(And))),
               Ok(IfConditionToken(Span(b2, |v2|), Atom(Variable))),
               Ok(IfConditionToken(Span(b3, 2), Operator(GreaterThanEqual))),
               Ok(IfConditionToken(Span(b4, |n|), Atom(Numeric))),
               Ok(IfConditionToken(Span(b5, 2), Operator(Or))),
               Ok(IfConditionToken(Span(b6, |v3|), Atom(Variable))),
               Ok(IfConditionToken(Span(b7, 6), Operator(IsNot))),
               Ok(IfConditionToken(Span(b8, |v4|), Atom(Variable)))]
  {
    var r3 := ">=" + " " + (n + " " + ("or" + " " + (v3 + " " + ("is" + " " + "not" + " " + v4))));
    var r1 := "and" + " " + (v2 + " " + r3);
    assert r3[0] == '>' && r1[0] == 'a';
    ComplexOperators();
    ComplexBack(b3, n, v3, v4, b4, b5, b6, b7, b8);
    OperatorThenVariable(b1, "and", 3, And, v2, r3, b2, b3);
    VariableBefore(byte, v1, b1, r1);
    ComplexJoin(Tokenize(Cursor(byte, text)), Tokenize(Cursor(b1, r1)), Tokenize(Cursor(b3, r3)),
                byte, b1, b2, b3, b4, b5, b6, b7, b8, |v1|, |v2|, |n|, |v3|, |v4|);
  }

  /** The last six tokens: `>= n or v3 is not v4`. */
  lemma ComplexBack(b3: nat, n: seq<char>, v3: seq<char>, v4: seq<char>, b4: nat, b5: nat, b6: nat, b7: nat, b8: nat)
    requires VariableWord(v3) && VariableWord(v4) && NumberWord(n)
    requires b4 == b3 + 3 && b5 == b4 + |n| + 1 && b6 == b5 + 3 && b7 == b6 + |v3| + 1 && b8 == b7 + 7
    ensures Tokenize(Cursor(b3, ">=" + " " + (n + " " + ("or" + " " + (v3 + " " + ("is" + " " + "not" + " " + v4)))))) ==
              [Ok(IfConditionToken(Span(b3, 2), Operator(GreaterThanEqual))),
               Ok(IfConditionToken(Span(b4, |n|), Atom(Numeric))),
               Ok(IfConditionToken(Span(b5, 2), Operator(Or))),
               Ok(IfConditionToken(Span(b6, |v3|), Atom(Variable))),
               Ok(IfConditionToken(Span(b7, 6), Operator(IsNot))),
               Ok(IfConditionToken(Span(b8, |v4|), Atom(Variable)))]
  {
    ComplexOperators();
    var r7 := "is" + " " + "not" + " " + v4;
    var r5 := "or" + " " + (v3 + " " + r7);
    var r3 := ">=" + " " + (n + " " + r5);
    assert r7[0] == 'i' && r5[0] == 'o';
    IsNotEnd(b7, v4, b8);
    OperatorThenVariable(b5, "or", 2, Or, v3, r7, b6, b7);
    OperatorThenNumber(b3, ">=", 2, GreaterThanEqual, n, r5, b4, b5);
    BackJoin(Tokenize(Cursor(b3, r3)), Tokenize(Cursor(b5, r5)), Tokenize(Cursor(b7, r7)), b3, b4, b5, b6, b7, b8, |n|, |v3|, |v4|);
  }

  lemma BackJoin(s3: seq<Item>, s5: seq<Item>, s7: seq<Item>, b3: nat, b4: nat, b5: nat, b6: nat, b7: nat, b8: nat,
                 ln: nat, l3: nat, l4: nat)
    requires s3 == [Ok(IfConditionToken(Span(b3, 2), Operator(GreaterThanEqual)))] + [Ok(IfConditionToken(Span(b4, ln), Atom(Numeric)))] + s5
    requires s5 == [Ok(IfConditionToken(Span(b5, 2), Operator(Or)))] + [Ok(IfConditionToken(Span(b6, l3), Atom(Variable)))] + s7
    requires s7 == [Ok(IfConditionToken(Span(b7, 6), Operator(IsNot))), Ok(IfConditionToken(Span(b8, l4), Atom(Variable)))]
    ensures s3 == [Ok(IfConditionToken(Span(b3, 2), Operator(GreaterThanEqual))),
                 Ok(IfConditionToken(Span(b4, ln), Atom(Numeric))),
                 Ok(IfConditionToken(Span(b5, 2), Operator(Or))),
                 Ok(IfConditionToken(Span(b6, l3), Atom(Variable))),
                 Ok(IfConditionToken(Span(b7, 6), Operator(IsNot))),
                 Ok(IfConditionToken(Span(b8, l4), Atom(Variable)))]
  {
  }

  lemma ComplexJoin(all: seq<Item>, s1: seq<Item>, s3: seq<Item>,
                    byte: nat, b1: nat, b2: nat, b3: nat, b4: nat, b5: nat, b6: nat, b7: nat, b8: nat,
                    l1: nat, l2: nat, ln: nat, l3: nat, l4: nat)
    requires all == [Ok(IfConditionToken(Span(byte, l1), Atom(Variable)))] + s1
    requires s1 == [Ok(IfConditionToken(Span(b1, 3), Operator(And)))] + [Ok(IfConditionToken(Span(b2, l2), Atom(Variable)))] + s3
    requires s3 == [Ok(IfConditionToken(Span(b3, 2), Operator(GreaterThanEqual))),
                   Ok(IfConditionToken(Span(b4, ln), Atom(Numeric))),
                   Ok(IfConditionToken(Span(b5, 2), Operator(Or))),
                   Ok(IfConditionToken(Span(b6, l3), Atom(Variable))),
                   Ok(IfConditionToken(Span(b7, 6), Operator(IsNot))),
                   Ok(IfConditionToken(Span(b8, l4), Atom(Variable)))]
    ensures all == [Ok(IfConditionToken(Span(byte, l1), Atom(Variable))),
                    Ok(IfConditionToken(Span(b1, 3), Operator(And))),
                    Ok(IfConditionToken(Span(b2, l2), Atom(Variable))),
                    Ok(IfConditionToken(Span(b3, 2), Operator(GreaterThanEqual))),
                    Ok(IfConditionToken(Span(b4, ln), Atom(Numeric))),
                    Ok(IfConditionToken(Span(b5, 2), Operator(Or))),
                    Ok(IfConditionToken(Span(b6, l3), Atom(Variable))),
                    Ok(IfConditionToken(Span(b7, 6), Operator(IsNot))),
                    Ok(IfConditionToken(Span(b8, l4), Atom(Variable)))]
  {
  }

  /** Items `xs` from one cursor lead to another, from which `ys` lead to a third. */
  lemma Chained(all: seq<Item>, xs: seq<Item>, mid: seq<Item>, ys: seq<Item>, rest: seq<Item>)
    requires all == xs + mid && mid == ys + rest
    ensures all == xs + ys + rest
  {
  }

  /** An operator keyword with its space, then a variable word with its space. */
  lemma OperatorThenVariable(byte: nat, o: seq<char>, len: nat, op: IfConditionOperator,
                             w: seq<char>, next: seq<char>, bw: nat, after: nat)
    requires o in SingleWordOperators && SingleWordOperators[o] == op && len == |o| && NoWhitespace(o)
    requires VariableWord(w) && StartsWord(next) && bw == byte + len + 1 && after == bw + |w| + 1
    ensures Tokenize(Cursor(byte, o + " " + (w + " " + next))) ==
              [Ok(IfConditionToken(Span(byte, len), Operator(op)))] + [Ok(IfConditionToken(Span(bw, |w|), Atom(Variable)))] +
              Tokenize(Cursor(after, next))
  {
    var r := w + " " + next;
    assert r[0] == w[0];
    VariableBefore(bw, w, after, next);
    OperatorBefore(byte, o, len, op, bw, r);
    Chained(Tokenize(Cursor(byte, o + " " + r)), [Ok(IfConditionToken(Span(byte, len), Operator(op)))], Tokenize(Cursor(bw, r)),
            [Ok(IfConditionToken(Span(bw, |w|), Atom(Variable)))], Tokenize(Cursor(after, next)));
  }

  /** An operator keyword with its space, then a number with its space. */
  lemma OperatorThenNumber(byte: nat, o: seq<char>, len: nat, op: IfConditionOperator,
                           w: seq<char>, next: seq<char>, bw: nat, after: nat)
    requires o in SingleWordOperators && SingleWordOperators[o] == op && len == |o| && NoWhitespace(o)
    requires NumberWord(w) && StartsWord(next) && bw == byte + len + 1 && after == bw + |w| + 1
    ensures Tokenize(Cursor(byte, o + " " + (w + " " + next))) ==
              [Ok(IfConditionToken(Span(byte, len), Operator(op)))] + [Ok(IfConditionToken(Span(bw, |w|), Atom(Numeric)))] +
              Tokenize(Cursor(after, next))
  {
    var r := w + " " + next;
    assert r[0] == w[0];
    NumberBefore(bw, w, after, next);
    OperatorBefore(byte, o, len, op, bw, r);
    Chained(Tokenize(Cursor(byte, o + " " + r)), [Ok(IfConditionToken(Span(byte, len), Operator(op)))], Tokenize(Cursor(bw, r)),
            [Ok(IfConditionToken(Span(bw, |w|), Atom(Numeric)))], Tokenize(Cursor(after, next)));
  }

  /** `is not` with its space, then a variable word that ends the text. */
  lemma IsNotEnd(byte: nat, v: seq<char>, bv: nat)
    requires VariableWord(v) && bv == byte + 7
    ensures Tokenize(Cursor(byte, "is" + " " + "not" + " " + v)) ==
              [Ok(IfConditionToken(Span(byte, 6), Operator(IsNot))), Ok(IfConditionToken(Span(bv, |v|), Atom(Variable)))]
  {
    VariableAtEnd(bv, v);
    IsNotBefore(byte, bv, v);
  }

  /** The condition's tag: the template around the condition, and the span of the condition. */
  lemma ComplexTag(template: seq<char>, text: seq<char>)
    requires template == "{% if " + text + " %}"
    ensures ValidSpan(template, Span(6, |text|))
    ensures TokenizeTag(template, TagParts(Span(6, |text|))) == Tokenize(Cursor(6, text))
  {
    assert template[6..6 + |text|] == text;
  }

  /** The condition of the test is of that shape. */
  lemma ComplexWordsText(text: seq<char>, v1: seq<char>, v2: seq<char>, n: seq<char>, v3: seq<char>, v4: seq<char>)
    requires text == "foo.bar|default:'spam' and count >= 1.5 or enabled is not False"
    requires v1 == "foo.bar|default:'spam'" && v2 == "count" && n == "1.5" && v3 == "enabled" && v4 == "False"
    ensures IsComplexText(text, v1, v2, n, v3, v4)
  {
  }

  /** The test's words are variable words, and its number a number. */
  lemma ComplexWordsKinds(v1: seq<char>, v2: seq<char>, n: seq<char>, v3: seq<char>, v4: seq<char>)
    requires v1 == "foo.bar|default:'spam'" && v2 == "count" && n == "1.5" && v3 == "enabled" && v4 == "False"
    ensures VariableWord(v1) && VariableWord(v2) && VariableWord(v3) && VariableWord(v4) && NumberWord(n)
  {
    LongVariable(v1);
    LongVariable(v2);
    LongVariable(v3);
    LongVariable(v4);
    assert NumberWord(n) by { assert n[0] == '1' && n[1] == '.' && n[2] == '5'; }
  }

  /** A word of the test longer than any keyword that starts like a variable. */
  lemma LongVariable(w: seq<char>)
    requires w in {"foo.bar|default:'spam'", "count", "enabled", "False"}
    ensures VariableWord(w)
  {
    assert NoWhitespace(w);
    KeywordsAreShort(w);
  }

  // src/lex/ifcondition.rs:536-591
  lemma LexComplexCondition()
    ensures TokenizeTag("{% if " + "foo.bar|default:'spam' and count >= 1.5 or enabled is not False" + " %}", TagParts(Span(6, 63))) ==
              [Ok(IfConditionToken(Span(6, 22), Atom(Variable))),
               Ok(IfConditionToken(Span(29, 3), Operator(And))),
               Ok(IfConditionToken(Span(33, 5), Atom(Variable))),
               Ok(IfConditionToken(Span(39, 2), Operator(GreaterThanEqual))),
               Ok(IfConditionToken(Span(42, 3), Atom(Numeric))),
               Ok(IfConditionToken(Span(46, 2), Operator(Or))),
               Ok(IfConditionToken(Span(49, 7), Atom(Variable))),
               Ok(IfConditionToken(Span(57, 6), Operator(IsNot))),
               Ok(IfConditionToken(Span(64, 5), Atom(Variable)))]
  {
    var text := "foo.bar|default:'spam' and count >= 1.5 or enabled is not False";
    var template := "{% if " + text + " %}";
    var v1, v2, n, v3, v4 := "foo.bar|default:'spam'", "count", "1.5", "enabled", "False";
    ComplexWordsText(text, v1, v2, n, v3, v4);
    ComplexWordsKinds(v1, v2, n, v3, v4);
    ComplexTag(template, text);
    ComplexShape(6, text, v1, v2, n, v3, v4, 29, 33, 39, 42, 46, 49, 57, 64);
  }

  /**
   * `'foo'remainder`: the text atom `'foo'`, then the run `remainder` that the
   * remainder check rejects, which ends the stream.
   */
  lemma FooRemainderStep(c: Cursor)
    requires c.rest == "'foo'remainder"
    ensures Step(c) == Some(Pulled(Err(InvalidRemainder(Span(c.byte + 5, 9))), Cursor(c.byte + 5, [])))
  {
    var token := IfConditionToken(Span(c.byte, 5), Atom(Text));
    FooRemainderParts(c);
    RemainderCheck(c, token);
    NonKeywordIsCondition(c);
  }

  /** The pieces of `'foo'remainder`: the text atom, a first word that is no keyword, and a nine-character run. */
  lemma FooRemainderParts(c: Cursor)
    requires c.rest == "'foo'remainder"
    ensures LexAtom(c).item == Ok(IfConditionToken(Span(c.byte, 5), Atom(Text)))
    ensures FirstWord(c.rest) !in Keywords
    ensures NextWhitespace(c.rest[5..]) == 9
  {
    FooQuoted(c);
    FooWord(c.rest);
    FooRun(c.rest);
  }

  lemma FooQuoted(c: Cursor)
    requires c.rest == "'foo'remainder"
    ensures LexAtom(c).item == Ok(IfConditionToken(Span(c.byte, 5), Atom(Text)))
  {
    assert c.rest[0] == '\'' && c.rest[4] == '\'' && c.rest[1..4] == "foo";
    assert PlainIn("foo", '\'');
    QuotedAtom(c, 4);
  }

  lemma FooWord(rest: seq<char>)
    requires rest == "'foo'remainder"
    ensures FirstWord(rest) !in Keywords
  {
    assert NoWhitespace(rest);
    LongWord(rest);
  }

  lemma FooRun(rest: seq<char>)
    requires rest == "'foo'remainder"
    ensures NextWhitespace(rest[5..]) == 9
  {
    assert rest[5..] == "remainder" && NoWhitespace("remainder");
    Word("remainder");
  }

  lemma FooRemainder()
    ensures Step(Cursor(6, "'foo'remainder")) == Some(Pulled(Err(InvalidRemainder(Span(11, 9))), Cursor(11, [])))
    ensures Tokenize(Cursor(6, "'foo'remainder")) == [Err(InvalidRemainder(Span(11, 9)))]
  {
    var c := Cursor(6, "'foo'remainder");
    FooRemainderStep(c);
    StepThen(c, Step(c).value, []);
  }

  // src/lex/ifcondition.rs:593-600
  lemma LexInvalidRemainder()
    ensures Step(Cursor(6, Content("{% if 'foo'remainder %}", Span(6, 14))))
            == Some(Pulled(Err(InvalidRemainder(Span(11, 9))), Cursor(11, [])))
    ensures TokenizeTag("{% if 'foo'remainder %}", TagParts(Span(6, 14))) == [Err(InvalidRemainder(Span(11, 9)))]
  {
    TagReads("{% if 'foo'remainder %}", TagParts(Span(6, 14)), "'foo'remainder");
    FooRemainder();
  }
}
