/** The lengths of the fixed delimiters shared by the tag lexers (src/lex.rs). */
module Lex {

  /** Length of a tag's opening marker `{%`. */
  const StartTagLen: nat := 2

  /** Length of a tag's closing marker `%}`. */
  const EndTagLen: nat := 2

  /** Length of the opening of a translated string, `_(`. */
  const StartTranslateLen: nat := 2

  /** Length of the closing of a translated string, `)`. */
  const EndTranslateLen: nat := 1

  /** Length of a quote character, `'` or `"`. */
  const QuoteLen: nat := 1
}
