/** The constants the word-level parser recognises (src/lex.rs). */
module Lex {

  /** Words of a statement are separated by this single character. */
  const WordDelimiter: char := ' '

  const KeywordCombinedResult: string := "combined_result"

  const ValidKeywords: seq<string> := [KeywordCombinedResult]

  const ParentheseStart: char := '('
  const ParentheseEnd: char := ')'
  const BraceStart: char := '{'
  const BraceEnd: char := '}'
  const VariableStart: char := '$'
}
