/** Token states and the mandatory-character search (src/scanner.rs). */
module Scanner {
  import opened Wrappers
  import opened Lex
  import opened Errors
  import Strings

  /** Which kind of word has been seen, with the offset of that word in the statement. */
  datatype TokenState =
    | OpeningParenthese(offset: nat)
    | OpeningBrace(offset: nat)
    | ClosingBrace(offset: nat)
    | CombinedResultsKeyword(offset: nat)
    | Variable(offset: nat)

  /** Maps a keyword word to its token state; only `combined_result` is a keyword. */
  function FromKeyword(keyword: string, offset: nat): (r: Option<TokenState>)
    ensures r.Some? <==> keyword == KeywordCombinedResult
    ensures r.Some? ==> r.value == CombinedResultsKeyword(offset)
  {
    if keyword == KeywordCombinedResult then Some(CombinedResultsKeyword(offset))
    else None
  }

  /**
   * The absolute position of the first `character` in `statement[cursor..end]`,
   * or `MissingCharacter(character, keyword)` when there is none. Rust panics
   * on a slice outside the statement, hence the precondition. The search is
   * written as a scan from `cursor`; `MandatoryPositionIsFind` shows it is
   * `cursor` plus `str::find` on the slice, as the source computes it.
   */
  function GetMandatorySucceedingCharacterPosition(
    cursor: nat, end: nat, statement: string, character: char, keyword: string)
    : (r: Result<nat, QueryCompilerError>)
    requires cursor <= end <= |statement|
    ensures r.Success? ==>
      && cursor <= r.value < end
      && statement[r.value] == character
      && character !in statement[cursor..r.value]
    ensures r.Failure? <==> character !in statement[cursor..end]
    ensures r.Failure? ==> r.error == MissingCharacter(character, keyword)
    decreases end - cursor
  {
    if cursor == end then Failure(MissingCharacter(character, keyword))
    else if statement[cursor] == character then Success(cursor)
    else
      var r := GetMandatorySucceedingCharacterPosition(cursor + 1, end, statement, character, keyword);
      assert statement[cursor..end] == [statement[cursor]] + statement[cursor + 1..end];
      assert r.Success? ==> statement[cursor..r.value] == [statement[cursor]] + statement[cursor + 1..r.value];
      r
  }

  /** The scan finds what `cursor + statement[cursor..end].find(character)` finds. */
  lemma {:induction false} MandatoryPositionIsFind(
    cursor: nat, end: nat, statement: string, character: char, keyword: string)
    requires cursor <= end <= |statement|
    ensures GetMandatorySucceedingCharacterPosition(cursor, end, statement, character, keyword) ==
      match Strings.Find(statement[cursor..end], character)
      case Some(i) => Success(cursor + i)
      case None => Failure(MissingCharacter(character, keyword))
  {
    var r := GetMandatorySucceedingCharacterPosition(cursor, end, statement, character, keyword);
    var f := Strings.Find(statement[cursor..end], character);
    if f.Some? {
      assert r.Success? && f.value + cursor == r.value by {
        FirstOccurrenceUnique(statement[cursor..end], character, r.value - cursor, f.value);
      }
    }
  }

  /** Two first occurrences of `c` in `s` are the same index. */
  lemma {:induction false} FirstOccurrenceUnique(s: string, c: char, i: nat, j: nat)
    requires i < |s| && s[i] == c && c !in s[..i]
    requires j < |s| && s[j] == c && c !in s[..j]
    ensures i == j
  {
  }
}
