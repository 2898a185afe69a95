/**
 * The records of one `combined_result` directive (src/parser/nodes/combined_result.rs):
 * the partial record the parser fills in word by word, the complete record
 * handed to code generation, and the conversion between them.
 */
module Nodes {
  import opened Wrappers
  import opened Lex
  import opened Errors
  import opened Strings

  /**
   * A directive while it is being parsed. `beginPosition` is the offset of
   * the `combined_result` keyword, `innerQueryBegin` that of the `{` word and
   * `endPosition` that of the `}` word.
   */
  datatype CombinedResultNode = CombinedResultNode(
    beginPosition: nat,
    endPosition: Option<nat>,
    iterationQuery: Option<string>,
    iterationItemVariable: Option<string>,
    innerQueryBegin: Option<nat>,
    innerQuery: Option<string>)

  /** A directive of which every part has been seen. */
  datatype CompleteCombinedResultNode = CompleteCombinedResultNode(
    beginPosition: nat,
    endPosition: nat,
    iterationQuery: string,
    iterationItemVariable: string,
    innerQueryBegin: nat,
    innerQuery: string)

  // The `Node` interface of code generation; the complete directive is its only implementation.

  function GetBeginPosition(n: CompleteCombinedResultNode): nat {
    n.beginPosition
  }

  /** The scope of a directive begins at its `{`. */
  function GetScopeBeginPosition(n: CompleteCombinedResultNode): nat {
    n.innerQueryBegin
  }

  function GetEndPosition(n: CompleteCombinedResultNode): nat {
    n.endPosition
  }

  /** A directive just opened by its keyword at `begin`: nothing else is known yet. */
  function NewNode(begin: nat): (n: CombinedResultNode)
    ensures n.beginPosition == begin
    ensures n.endPosition.None? && n.iterationQuery.None? && n.iterationItemVariable.None?
    ensures n.innerQueryBegin.None? && n.innerQuery.None?
  {
    CombinedResultNode(begin, None, None, None, None, None)
  }

  predicate IsComplete(n: CombinedResultNode) {
    && n.endPosition.Some?
    && n.iterationQuery.Some?
    && n.iterationItemVariable.Some?
    && n.innerQueryBegin.Some?
    && n.innerQuery.Some?
  }

  /**
   * The partial view of a complete directive, every optional part present;
   * `TryFromNode` inverts it.
   */
  function Partial(c: CompleteCombinedResultNode): (n: CombinedResultNode)
    ensures IsComplete(n) && n.beginPosition == c.beginPosition
    ensures TryFromNode(n) == Success(c)
  {
    CombinedResultNode(c.beginPosition, Some(c.endPosition), Some(c.iterationQuery),
                       Some(c.iterationItemVariable), Some(c.innerQueryBegin), Some(c.innerQuery))
  }

  /**
   * The conversion to a complete directive: it succeeds exactly when all five
   * optional parts are present and then carries exactly those values;
   * otherwise the directive is reported incomplete at its keyword's offset.
   */
  function TryFromNode(n: CombinedResultNode): (r: Result<CompleteCombinedResultNode, QueryCompilerError>)
    ensures r.Success? <==> IsComplete(n)
    ensures r.Success? ==>
      && r.value.beginPosition == n.beginPosition
      && Some(r.value.endPosition) == n.endPosition
      && Some(r.value.iterationQuery) == n.iterationQuery
      && Some(r.value.iterationItemVariable) == n.iterationItemVariable
      && Some(r.value.innerQueryBegin) == n.innerQueryBegin
      && Some(r.value.innerQuery) == n.innerQuery
    ensures r.Failure? ==> r.error == DirectiveIncomplete(KeywordCombinedResult, n.beginPosition)
  {
    if n.iterationQuery.None? || n.endPosition.None? || n.iterationItemVariable.None?
       || n.innerQueryBegin.None? || n.innerQuery.None?
    then Failure(DirectiveIncomplete(KeywordCombinedResult, n.beginPosition))
    else Success(CompleteCombinedResultNode(
      n.beginPosition, n.endPosition.value, n.iterationQuery.value,
      n.iterationItemVariable.value, n.innerQueryBegin.value, n.innerQuery.value))
  }

  /** A directive that was only opened never converts. */
  lemma {:induction false} NewNodeIsIncomplete(begin: nat)
    ensures TryFromNode(NewNode(begin)) == Failure(DirectiveIncomplete(KeywordCombinedResult, begin))
  {
  }

  /**
   * The non-empty words of `q` when space, '\n' and '\r' all separate words:
   * what query normalisation keeps.
   */
  function Words(q: string): seq<string> {
    FilterNonEmpty(Split(ReplaceChar(ReplaceChar(q, '\n', ' '), '\r', ' '), ' '))
  }

  /** Line breaks become spaces and runs of spaces collapse to one, with none at either end. */
  function NormalizeQuery(q: string): (r: string)
    ensures '\n' !in r && '\r' !in r
    ensures |r| > 0 ==> r[0] != ' ' && r[|r| - 1] != ' '
    ensures forall i :: 0 <= i < |r| - 1 && r[i] == ' ' ==> r[i + 1] != ' '
  {
    WordsAreClean(q);
    JoinShape(Words(q));
    Join(Words(q), ' ')
  }

  /** A word is clean when it is non-empty and holds no separator. */
  predicate CleanWord(w: string) {
    |w| > 0 && ' ' !in w && '\n' !in w && '\r' !in w
  }

  lemma {:induction false} JoinContains(words: seq<string>, d: char, i: nat, c: char)
    requires i < |words| && c in words[i]
    ensures c in Join(words, d)
  {
    if i > 0 {
      JoinContains(words[1..], d, i - 1, c);
    }
  }

  lemma {:induction false} FilterNonEmptyKeeps(words: seq<string>, c: char)
    requires forall i :: 0 <= i < |words| ==> c !in words[i]
    ensures forall i :: 0 <= i < |FilterNonEmpty(words)| ==> c !in FilterNonEmpty(words)[i]
  {
    if |words| > 0 {
      FilterNonEmptyKeeps(words[1..], c);
    }
  }

  /** A character missing from a joined string is missing from every piece. */
  lemma {:induction false} PiecesLack(pieces: seq<string>, d: char, c: char)
    requires c !in Join(pieces, d)
    ensures forall i :: 0 <= i < |pieces| ==> c !in pieces[i]
  {
    forall i | 0 <= i < |pieces|
      ensures c !in pieces[i]
    {
      if c in pieces[i] {
        JoinContains(pieces, d, i, c);
      }
    }
  }

  lemma {:induction false} WordsAreClean(q: string)
    ensures forall i :: 0 <= i < |Words(q)| ==> CleanWord(Words(q)[i])
  {
    var blank := ReplaceChar(ReplaceChar(q, '\n', ' '), '\r', ' ');
    assert '\n' !in blank && '\r' !in blank;
    var pieces := Split(blank, ' ');
    PiecesLack(pieces, ' ', '\n');
    PiecesLack(pieces, ' ', '\r');
    FilterNonEmptyKeeps(pieces, '\n');
    FilterNonEmptyKeeps(pieces, '\r');
    FilterNonEmptyKeeps(pieces, ' ');
  }

  /** Joining clean words with single spaces leaves no space at either end and no two in a row. */
  lemma {:induction false} JoinShape(words: seq<string>)
    requires forall i :: 0 <= i < |words| ==> CleanWord(words[i])
    ensures var r := Join(words, ' ');
      && '\n' !in r && '\r' !in r
      && (|r| > 0 ==> r[0] != ' ' && r[|r| - 1] != ' ')
      && (forall i :: 0 <= i < |r| - 1 && r[i] == ' ' ==> r[i + 1] != ' ')
  {
    if |words| >= 2 {
      var w := words[0];
      var t := Join(words[1..], ' ');
      JoinShape(words[1..]);
      var r := w + [' '] + t;
      assert r == Join(words, ' ');
      assert |t| > 0 by {
        assert |words[1..][0]| > 0;
        JoinLength(words[1..], ' ');
      }
      forall i | 0 <= i < |r| - 1 && r[i] == ' '
        ensures r[i + 1] != ' '
      {
        if i == |w| {
          assert r[i + 1] == t[0];
        } else if i > |w| {
          assert r[i] == t[i - |w| - 1];
          assert r[i + 1] == t[i - |w|];
        }
      }
      forall c | c == '\n' || c == '\r'
        ensures c !in r
      {
        assert c !in w;
      }
    }
  }

  lemma {:induction false} JoinLength(words: seq<string>, d: char)
    requires |words| >= 1
    ensures |Join(words, d)| >= |words[0]|
  {
  }

  lemma {:induction false} FilterNonEmptyOfNonEmpty(words: seq<string>)
    requires forall i :: 0 <= i < |words| ==> |words[i]| > 0
    ensures FilterNonEmpty(words) == words
  {
    if |words| > 0 {
      FilterNonEmptyOfNonEmpty(words[1..]);
      assert [words[0]] + words[1..] == words;
    }
  }

  /** Normalisation keeps the sequence of words: re-reading the words of the result gives them back. */
  lemma {:induction false} WordsOfNormalized(q: string)
    ensures Words(NormalizeQuery(q)) == Words(q)
  {
    var ws := Words(q);
    WordsAreClean(q);
    var r := Join(ws, ' ');
    assert r == NormalizeQuery(q);
    JoinShape(ws);
    assert ReplaceChar(r, '\n', ' ') == r;
    assert ReplaceChar(ReplaceChar(r, '\n', ' '), '\r', ' ') == r;
    if |ws| == 0 {
      assert Split(r, ' ') == [""];
    } else {
      SplitJoin(ws, ' ');
      FilterNonEmptyOfNonEmpty(ws);
    }
  }

  /** Normalising twice is normalising once. */
  lemma {:induction false} NormalizeIdempotent(q: string)
    ensures NormalizeQuery(NormalizeQuery(q)) == NormalizeQuery(q)
  {
    WordsOfNormalized(q);
  }

  /** Two queries normalise equal exactly when they have the same words in the same order. */
  lemma {:induction false} NormalizeEqualIff(a: string, b: string)
    ensures NormalizeQuery(a) == NormalizeQuery(b) <==> Words(a) == Words(b)
  {
    WordsOfNormalized(a);
    WordsOfNormalized(b);
  }

  /**
   * Equality of complete directives: the positions, the iteration query and
   * the variable must be identical, the inner queries need only agree word by word.
   */
  function NodesEqual(a: CompleteCombinedResultNode, b: CompleteCombinedResultNode): (r: bool)
    ensures r <==>
      && a.beginPosition == b.beginPosition
      && a.endPosition == b.endPosition
      && a.iterationQuery == b.iterationQuery
      && a.iterationItemVariable == b.iterationItemVariable
      && a.innerQueryBegin == b.innerQueryBegin
      && Words(a.innerQuery) == Words(b.innerQuery)
  {
    NormalizeEqualIff(a.innerQuery, b.innerQuery);
    && a.beginPosition == b.beginPosition
    && a.endPosition == b.endPosition
    && a.iterationQuery == b.iterationQuery
    && a.iterationItemVariable == b.iterationItemVariable
    && a.innerQueryBegin == b.innerQueryBegin
    && NormalizeQuery(a.innerQuery) == NormalizeQuery(b.innerQuery)
  }

  /** Identifiers of the generated SQL; a quote style is kept as in the SQL library's `Ident`. */
  datatype Ident = Ident(value: string, quoteStyle: Option<char>)

  /** An unquoted identifier. */
  function NewIdent(value: string): Ident {
    Ident(value, None)
  }

  /** A column type of the SQL library, opaque here. */
  datatype DataType = DataType(name: string)

  datatype TableAliasColumnDef = TableAliasColumnDef(name: Ident, dataType: Option<DataType>)

  /**
   * The column list of the recursive common table expression: an iteration
   * counter column `n` followed by the original columns in order, all untyped.
   */
  function ConstructRecursiveCteColumns(originalSelectColumnIdents: seq<Ident>)
    : (r: seq<TableAliasColumnDef>)
    ensures |r| == |originalSelectColumnIdents| + 1
    ensures r[0].name == NewIdent("n")
    ensures forall i :: 1 <= i < |r| ==> r[i].name == originalSelectColumnIdents[i - 1]
    ensures forall i :: 0 <= i < |r| ==> r[i].dataType.None?
  {
    var cteIdents := [NewIdent("n")] + originalSelectColumnIdents;
    seq(|cteIdents|, i requires 0 <= i < |cteIdents| => TableAliasColumnDef(cteIdents[i], None))
  }
}
