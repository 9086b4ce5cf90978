# Tag-argument lexers of django-rusty-templates, modelled in Dafny

This project models two lexers of the template engine's Rust core. Each runs
over the argument text of one template tag and reports spans of the template:

- **`IfConditionLexer`** (src/lex/ifcondition.rs) lexes the condition of an
  `{% if %}` tag. It yields a flat stream of operator tokens, `not` tokens and
  atom tokens, or stops at a single error.
  - The atoms are variables, numbers, quoted texts and translated texts `_('…')`.
  - The operator keywords are `and or == != < > <= >= in`, `not` / `not in` and `is` / `is not`.
  - The errors are `IncompleteString`, `IncompleteTranslatedString` and `InvalidRemainder`.
- **`LoadLexer`** (src/lex/load.rs) splits the argument of a `{% load %}` tag
  into whitespace-delimited words. It cannot fail.

The fixed delimiter lengths (src/lex.rs:11-16) are the constants of module `Lex`.

Each lexer is modelled in two layers:

- A pure layer defines the lexer's meaning on a `Cursor(byte, rest)`.
  - `IfCondition.Step` and `Load.LoadStep` are one pull of the iterator.
  - `IfCondition.Tokenize` and `Load.LoadTokens` are the whole stream.
  - `TokenizeTag` and `LoadTokensTag` are what `Lexer::new(template, parts).collect()` yields.
- A class layer (`IfConditionLexer`, `LoadLexer`) is the iterator itself.
  - It has the mutable fields `rest` and `byte` that the Rust struct has.
  - Its methods update those fields in place and are proved against the pure layer.
  - Its `Collect` loop is proved to yield exactly the pure stream.

The lemma modules prove what the lexers promise over these definitions:

- errors are terminal;
- items lie in the argument span, in source order;
- the keyword and two-word keyword rules;
- the atom dispatch and the remainder check;
- the shape of every token read back from the template;
- for `{% load %}`, that the tokens are exactly the words.

Every unit test of both files is a concrete lemma.

Text is `seq<char>` (Unicode scalar values), and every offset is an index
into it. For ASCII text this is the byte offset the Rust code computes.
Whitespace is the Unicode White_Space set that Rust's `char::is_whitespace`
and `trim_start` use.

The scanning helpers are `next_whitespace`, `next_non_whitespace`,
`lex_variable`, `lex_numeric`, `lex_text`, `lex_translated`,
`text_content_at` and `translated_text_content_at`. They live in
src/lex/common.rs, which is not part of this model. Module `Common` defines
them from the behaviour that the calls in ifcondition.rs and its unit tests
pin down:

- a variable is the maximal non-whitespace run;
- a number is the maximal run of digits, `.` and `-`;
- a text ends at the first unescaped matching quote, where a backslash escapes the next character;
- a text without a closing quote is an `IncompleteString` over all of the rest;
- a translated text is `_(`, a text, then `)`;
  - without a quote after `_(`, it is an `IncompleteTranslatedString` over all of the rest;
  - an unclosed inner text is that text's `IncompleteString`;
  - a missing `)` is an `IncompleteTranslatedString` over `_(` and the text.

The span of a tag's argument (src/lex/tag.rs, also not part of this model) is a
parameter `TagParts(Span(start, len))`.

Source files: `common.dfy` (helpers), `lex.dfy` (constants), `ifcondition.dfy`,
`ifcondition_lemmas.dfy`, `ifcondition_tests.dfy`, `load.dfy`,
`load_lemmas.dfy`, `load_tests.dfy`, `wrappers.dfy` (`Option`, `Result`).

## Model

| member | source | states |
|---|---|---|
| IfCondition.ContentAt | src/lex/ifcondition.rs:45-54 | The raw span for variables, numbers, operators and `not`. For a text, the span without its two quotes. For a translated text, the span without `_(` plus the left quote and without the right quote plus `)`. Always inside the raw span. |
| Common.TextContentAt | src/lex/ifcondition.rs:48 | The content of a text starts one quote length after the raw span and ends one quote length before it. |
| Common.TranslatedTextContentAt | src/lex/ifcondition.rs:49-51 | The content of a translated text starts after `_(` and a quote, and ends before a quote and `)`. |
| Common.NextWhitespace | src/lex/ifcondition.rs:175 | The index of the first whitespace character, or the length: every earlier character is non-whitespace. |
| Common.NextNonWhitespace | src/lex/ifcondition.rs:187 | The index of the first non-whitespace character, or the length: every earlier character is whitespace. |
| Common.LexVariable | src/lex/ifcondition.rs:89-97 | The variable atom starts at the cursor, covers only non-whitespace characters, and stops at whitespace or the end. The cursor moves just past it. |
| Common.NumericRun | src/lex/ifcondition.rs:99-107 | The longest prefix of digits, `.` and `-`. |
| Common.LexNumeric | src/lex/ifcondition.rs:99-107 | The numeric atom is the maximal run of digits, `.` and `-` at the cursor, and the cursor moves just past it. |
| Common.ScanText | src/lex/ifcondition.rs:109-128 | It returns the first index where the text so far is an escaped body followed by the quote; it returns none exactly when no such index exists. |
| Common.LexText | src/lex/ifcondition.rs:109-128 | A text atom runs from its opening quote to a matching quote that closes an escaped body. It is an `IncompleteString` over all of the rest exactly when no quote closes such a body. |
| Common.LexTranslated | src/lex/ifcondition.rs:130-148 | A translated atom is `_(`, a quote, an escaped body, the same quote and `)`. Without a quote after `_(`, it is an `IncompleteTranslatedString` over all of the rest. Any other error is an `IncompleteTranslatedString` from the cursor or the inner `IncompleteString`. |
| Common.Skip | src/lex/ifcondition.rs:244-249 | Consuming `k` characters leaves the same text from an offset exactly `k` later. |
| Common.ConsumedKeepsSlice | src/lex/ifcondition.rs:63-68 | A cursor that reads the template up to the end of the span keeps doing so after any consumption. This is why `byte + len(rest)` stays at the end of the span. |
| IfCondition.PeekWord | src/lex/ifcondition.rs:186-189 | The whitespace and the following word after the first word stay within the rest. |
| IfCondition.MatchKeyword | src/lex/ifcondition.rs:175-243 | A keyword match spans at least the first word, stays within the rest, and is never an atom. |
| IfCondition.RemainderStep | src/lex/ifcondition.rs:150-164 | It succeeds exactly when the rest is empty or starts with whitespace. On success it skips all of that whitespace. On failure it is an `InvalidRemainder` over the non-empty run up to the next whitespace. |
| IfCondition.TranslatedStep | src/lex/ifcondition.rs:130-148 | A translated atom starts at the cursor, stays in the rest, is well formed, and moves the cursor just past it. An error lies in the rest and empties it. |
| IfCondition.TextStep | src/lex/ifcondition.rs:109-128 | A text atom starts at the cursor, stays in the rest, is well formed, and moves the cursor just past it. An error lies in the rest and empties it. |
| IfCondition.NumericStep | src/lex/ifcondition.rs:99-107 | A numeric atom never fails, and the cursor moves just past it. |
| IfCondition.VariableStep | src/lex/ifcondition.rs:89-97 | A variable atom never fails, and the cursor moves just past it. |
| IfCondition.LexAtom | src/lex/ifcondition.rs:70-84 | The atom chosen by the first character satisfies the atom guarantee: on success the cursor moves just past the atom; an error empties the rest. |
| IfCondition.LexConditionStep | src/lex/ifcondition.rs:70-87 | The atom followed by the remainder check consumes text. Its item lies in the unread text. An error empties the rest. A token leaves the cursor at a word or at the end. |
| IfCondition.KeywordStep | src/lex/ifcondition.rs:244-251 | A keyword pull consumes text, yields a well-formed token inside the unread text, and leaves the cursor at a word or at the end. |
| IfCondition.Step | src/lex/ifcondition.rs:170-252 | The result is `None` exactly on an empty rest. Any pull consumes text and yields an item inside the unread text. An error empties the rest. A token is well formed and leaves the cursor at a word or at the end. |
| IfCondition.TokenizeAppend | src/lex/ifcondition.rs:170-252 | Collecting one more pull and then the stream from the new cursor gives the same items as the stream from the old cursor. |
| IfCondition.IfConditionLexer.constructor | src/lex/ifcondition.rs:62-68 | The lexer starts at the start of the argument span, with the span's text as its rest. |
| IfCondition.IfConditionLexer.Next | src/lex/ifcondition.rs:170-252 | An empty rest gives `None` and changes nothing. Otherwise the item and the new cursor are those of `Step`. After a token, `byte + len(rest)` is unchanged. |
| IfCondition.IfConditionLexer.LexKeyword | src/lex/ifcondition.rs:244-251 | The token and the new cursor are those of `KeywordStep`. |
| IfCondition.IfConditionLexer.LexCondition | src/lex/ifcondition.rs:70-87 | The item and the new cursor are those of `LexConditionStep`. |
| IfCondition.IfConditionLexer.LexVariable | src/lex/ifcondition.rs:89-97 | The token and the new cursor are those of `VariableStep`. |
| IfCondition.IfConditionLexer.LexNumeric | src/lex/ifcondition.rs:99-107 | The token and the new cursor are those of `NumericStep`. |
| IfCondition.IfConditionLexer.LexText | src/lex/ifcondition.rs:109-128 | The item and the new cursor are those of `TextStep`. An error empties the rest. |
| IfCondition.IfConditionLexer.LexTranslated | src/lex/ifcondition.rs:130-148 | The item and the new cursor are those of `TranslatedStep`. An error empties the rest. |
| IfCondition.IfConditionLexer.LexRemainder | src/lex/ifcondition.rs:150-164 | On success the cursor is the one `RemainderStep` gives. On failure the error is the one `RemainderStep` gives, the rest is empty, and the offset is unchanged. |
| IfCondition.IfConditionLexer.Collect | src/lex/ifcondition.rs:167-252 | Pulling until `None` yields exactly `Tokenize` of the starting cursor and leaves the rest empty. |
| IfConditionLemmas.ErrorIsLast | src/lex/ifcondition.rs:123-126 | A stream contains at most one error, and only as its last item, because every error empties the rest. This also covers lines 143-146 and 158-161. |
| IfConditionLemmas.ExhaustedIsEmpty | src/lex/ifcondition.rs:171-173 | The stream is empty exactly when the rest is. An exhausted lexer keeps returning `None`. |
| IfConditionLemmas.TokenizeWithin | src/lex/ifcondition.rs:170-252 | Every item's span lies in the text not yet consumed. |
| IfConditionLemmas.TokenizeOrdered | src/lex/ifcondition.rs:170-252 | Items do not overlap and come in source order. |
| IfConditionLemmas.TokenizeWellFormed | src/lex/ifcondition.rs:45-54 | Every token of the stream is long enough for `content_at` to strip its delimiters. |
| IfConditionLemmas.TokensNonEmpty | src/lex/ifcondition.rs:175-252 | When the text starts with a non-whitespace character, no token of the stream is empty. |
| IfConditionLemmas.TagTokensOrdered | src/lex/ifcondition.rs:62-68 | For a tag's argument, the items lie inside the argument span in source order, with at most one error and only at the end, and every token is well formed. Token starts strictly increase when the argument starts with a non-whitespace character. |
| IfConditionLemmas.StepOnKeyword | src/lex/ifcondition.rs:244-251 | A matched keyword is yielded with the span the match gives, and the whitespace after it is skipped. |
| IfConditionLemmas.PeekedWord | src/lex/ifcondition.rs:186-190 | Peeking after the first word finds exactly the whitespace run and then the next whitespace-delimited word. |
| IfConditionLemmas.MatchSingleWord | src/lex/ifcondition.rs:177-225 | Each one-word operator keyword matches its operator and spans only the word. |
| IfConditionLemmas.SingleWordKeyword | src/lex/ifcondition.rs:177-225 | A first word equal to `and`, `or`, `==`, `!=`, `<`, `>`, `<=`, `>=` or `in` yields that operator with span `(byte, len(word))`, and the whitespace after it is skipped. |
| IfConditionLemmas.MatchNot | src/lex/ifcondition.rs:185-197 | `not` matches `NotIn` through the peeked word when that word is `in`, and `Not` over `not` otherwise. |
| IfConditionLemmas.MatchIs | src/lex/ifcondition.rs:226-241 | `is` matches `IsNot` through the peeked word when that word is `not`, and `Is` over `is` otherwise. |
| IfConditionLemmas.NotKeyword | src/lex/ifcondition.rs:185-197 | Suppose the first word is `not`. If the next word is exactly `in`, the pull is one `NotIn` spanning both words and the whitespace between them. Otherwise it is `Not` spanning `not`, and the next word is left for the next pull. |
| IfConditionLemmas.IsKeyword | src/lex/ifcondition.rs:226-241 | Suppose the first word is `is`. If the next word is exactly `not`, the pull is one `IsNot` spanning both words. Otherwise it is `Is` spanning `is`, and the next word is left for the next pull. |
| IfConditionLemmas.NonKeywordIsCondition | src/lex/ifcondition.rs:242 | A first word that is no keyword is lexed as an atom followed by the remainder check. |
| IfConditionLemmas.RemainderCheck | src/lex/ifcondition.rs:150-164 | Take an accepted atom of length `len`. If the character after it is whitespace or the end, the pull yields the atom and skips the whitespace. Otherwise the pull is `InvalidRemainder(byte + len, run length)` and the rest becomes empty. |
| IfConditionLemmas.AfterAtom | src/lex/ifcondition.rs:85 | The remainder check on the cursor that an accepted atom leaves is either the skip of the following whitespace or an `InvalidRemainder` over the run after the atom. |
| IfConditionLemmas.VariableCondition | src/lex/ifcondition.rs:83 | A word that opens no other atom is one variable over the whole first word, which never fails the remainder check. |
| IfConditionLemmas.NumericAtom | src/lex/ifcondition.rs:82 | A digit or `-` opens a non-empty numeric atom over the maximal run of digits, `.` and `-`. |
| IfConditionLemmas.TextAtom | src/lex/ifcondition.rs:80-81 | A quote opens a text. If some quote closes an escaped body, the text ends there. If none does, the atom is an `IncompleteString` over all of the text, and the rest becomes empty. |
| IfConditionLemmas.TranslatedNoQuote | src/lex/ifcondition.rs:73-75 | `_(` without a quote right after it gives an `IncompleteTranslatedString` over all of the text. |
| IfConditionLemmas.TranslatedUnclosed | src/lex/ifcondition.rs:130-148 | `_(` and a quote that nothing closes give the inner literal's `IncompleteString`, which starts after `_(`. |
| IfConditionLemmas.TranslatedClosed | src/lex/ifcondition.rs:130-148 | Suppose the literal after `_(` closes. If `)` follows, it is a translated text through that `)`. Otherwise it is an `IncompleteTranslatedString` over `_(` and the literal. |
| IfConditionLemmas.AtomShaped | src/lex/ifcondition.rs:70-148 | Every atom the sub-lexers accept has the shape of its kind in the template. |
| IfConditionLemmas.SingleWordOperatorsText | src/lex/ifcondition.rs:177-225 | The one-word keyword table agrees with the keyword text of each operator. |
| IfConditionLemmas.StepShaped | src/lex/ifcondition.rs:170-252 | A token from one pull reads back from the template as the shape of its kind. |
| IfConditionLemmas.StepKeepsTemplate | src/lex/ifcondition.rs:244-249 | The cursor that one pull leaves still reads the template. |
| IfConditionLemmas.TokensShaped | src/lex/ifcondition.rs:170-252 | Every token of the stream has the shape of its kind. A keyword is its own text, two words for `not in` and `is not`. A variable has no whitespace. A number is digits, `.` and `-`. A text is an escaped body between matching quotes. A translated text is that inside `_(` and `)`. The `content_at` span of a quoted kind is exactly its escaped body. |
| IfConditionLemmas.TagTokensShaped | src/lex/ifcondition.rs:45-54 | Every token of a tag's argument has the shape of its kind in the template, and `content_at` gives exactly the body of a quoted kind. |
| IfConditionTests.LexVariable | src/lex/ifcondition.rs:259-271 | `foo` at offset 6 is one Variable `(6,3)`. |
| IfConditionTests.LexVariableLeadingUnderscore | src/lex/ifcondition.rs:273-285 | `_foo` is one Variable `(6,4)`. |
| IfConditionTests.LexNumeric | src/lex/ifcondition.rs:287-299 | `5.3` is one Numeric `(6,3)`. |
| IfConditionTests.LexText | src/lex/ifcondition.rs:301-313 | `'foo'` is one Text `(6,5)`. |
| IfConditionTests.LexTextDoubleQuotes | src/lex/ifcondition.rs:315-327 | `"foo"` is one Text `(6,5)`. |
| IfConditionTests.LexTranslated | src/lex/ifcondition.rs:329-341 | `_('foo')` is one TranslatedText `(6,8)`. |
| IfConditionTests.LexTranslatedError | src/lex/ifcondition.rs:343-352 | `_('foo'` is one `IncompleteTranslatedString` error `(6,7)`. |
| IfConditionTests.LexAnd | src/lex/ifcondition.rs:354-366 | `and` is one And operator `(6,3)`. |
| IfConditionTests.LexOr | src/lex/ifcondition.rs:368-380 | `or` is one Or operator `(6,2)`. |
| IfConditionTests.LexNot | src/lex/ifcondition.rs:382-394 | `not` is one Not token `(6,3)`. |
| IfConditionTests.LexEqual | src/lex/ifcondition.rs:396-408 | `==` is one Equal operator `(6,2)`. |
| IfConditionTests.LexNotEqual | src/lex/ifcondition.rs:410-422 | `!=` is one NotEqual operator `(6,2)`. |
| IfConditionTests.LexLessThan | src/lex/ifcondition.rs:424-436 | `<` is one LessThan operator `(6,1)`. |
| IfConditionTests.LexGreaterThan | src/lex/ifcondition.rs:438-450 | `>` is one GreaterThan operator `(6,1)`. |
| IfConditionTests.LexLessEqual | src/lex/ifcondition.rs:452-464 | `<=` is one LessThanEqual operator `(6,2)`. |
| IfConditionTests.LexGreaterEqual | src/lex/ifcondition.rs:466-478 | `>=` is one GreaterThanEqual operator `(6,2)`. |
| IfConditionTests.LexIn | src/lex/ifcondition.rs:480-492 | `in` is one In operator `(6,2)`. |
| IfConditionTests.LexNotIn | src/lex/ifcondition.rs:494-506 | `not in` is one NotIn operator `(6,6)`. |
| IfConditionTests.LexIs | src/lex/ifcondition.rs:508-520 | `is` is one Is operator `(6,2)`. |
| IfConditionTests.LexIsNot | src/lex/ifcondition.rs:522-534 | `is not` is one IsNot operator `(6,6)`. |
| IfConditionTests.LexComplexCondition | src/lex/ifcondition.rs:536-591 | The test's composite condition, with a filtered variable, `and`, `>=`, a number, `or` and `is not`, is exactly the nine tokens with the spans the test lists. |
| IfConditionTests.LexInvalidRemainder | src/lex/ifcondition.rs:593-600 | For `'foo'remainder` at offset 6, the first pull is `InvalidRemainder(11,9)` and it empties the rest, so that error is the whole stream. |
| Load.LoadStep | src/lex/load.rs:27-41 | The result is `None` exactly on an empty rest. Otherwise the pull consumes at least one character of the same text. |
| Load.LoadStepShape | src/lex/load.rs:32-39 | The token starts at the cursor and covers only non-whitespace characters. It is maximal unless the text ends. The cursor then skips exactly the whitespace after it and stops at a word or the end. |
| Load.LoadTokensAppend | src/lex/load.rs:27-41 | Collecting one more pull and then the stream from the new cursor gives the same tokens as the stream from the old cursor. |
| Load.LoadLexer.constructor | src/lex/load.rs:15-21 | The lexer starts at the start of the argument span, with the span's text as its rest. |
| Load.LoadLexer.Next | src/lex/load.rs:27-41 | An empty rest gives `None` and changes nothing. Otherwise the token and the new cursor are those of `LoadStep`, and `byte + len(rest)` is unchanged. |
| Load.LoadLexer.Collect | src/lex/load.rs:24-41 | Pulling until `None` yields exactly `LoadTokens` of the starting cursor and leaves the cursor at the end of the span. |
| LoadLemmas.StepBounds | src/lex/load.rs:32-39 | The token starts at the cursor and ends where the new cursor starts, or strictly before it when text remains. The end of the text is unchanged. |
| LoadLemmas.LoadTokensWithin | src/lex/load.rs:27-41 | Every token lies between the cursor and the end of its text. |
| LoadLemmas.LoadTokensOrdered | src/lex/load.rs:32-39 | Each token ends strictly before the next one starts. So the tokens are disjoint, in source order, and their starts strictly increase. |
| LoadLemmas.LoadTokensNonEmpty | src/lex/load.rs:33 | When the text starts with a word, no token is empty. |
| LoadLemmas.LoadTokensCover | src/lex/load.rs:32-37 | A character is covered by some token exactly when it is not whitespace, so the tokens are exactly the words. |
| LoadLemmas.LoadTagTokens | src/lex/load.rs:15-41 | The tokens of a `{% load %}` tag lie inside the argument span, disjoint and in order, and cover exactly the span's non-whitespace characters of the template. |
| LoadTests.LoadLibrary | src/lex/load.rs:48-56 | `foo` at offset 8 is the token `(8,3)`. |
| LoadTests.LoadLibraries | src/lex/load.rs:58-67 | `foo bar.eggs` is the tokens `(8,3)` and `(12,8)`. |
| LoadTests.LoadIndividual | src/lex/load.rs:69-80 | `foo bar from library` is the tokens `(8,3)`, `(12,3)`, `(16,4)` and `(21,7)`, with no special treatment of `from`. |

## Left out

- The scanning helpers of src/lex/common.rs and the tag-part extractor of src/lex/tag.rs are not part of this model. Their behaviour is defined in `Common` from their uses, as described above.
- UTF-8 byte widths: offsets are indices of Unicode scalar values. For non-ASCII text the Rust spans count bytes, so spans after a non-ASCII character differ.
- Error diagnostics (miette labels, message text): they are formatted outside the lexers.
- src/render/common.rs and the Python tests: they resolve values through pyo3 and the Django engine, which are foreign calls.
- Filter decomposition inside a Variable token: it belongs to the parser. The lexer's maximal non-whitespace run is modelled as is.
- The borrowed `Chars` iterator passed into `lex_text` and `lex_translated`: the model re-reads the same characters from `rest`.
- No precondition that the argument starts with non-whitespace: both lexers are total, as in the source. On a leading whitespace character the first token is empty, and `TokensNonEmpty` and `LoadTokensNonEmpty` state what holds without it.
- IfCondition.IfConditionLexer.Next: after an error the class invariant only says that the rest is empty, because the source keeps `byte` where the error was.
