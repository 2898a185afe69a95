/** The error variants of the query compiler (src/error.rs). */
module Errors {

  /**
   * `ResultingQueryInvalid` carries the message of the SQL parser's own error,
   * whose structure belongs to an external library.
   */
  datatype QueryCompilerError =
    | MissingCharacter(character: char, keyword: string)
    | UnsupportedNesting(inner: string, outer: string)
    | DirectiveIncomplete(directive: string, offset: nat)
    | InnerQueryInvalid(message: string)
    | ResultingQueryInvalid(query: string, parserError: string)
}
