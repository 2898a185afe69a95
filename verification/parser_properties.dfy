/**
 * Properties of a whole parse (src/parser/state.rs, with the behaviour the
 * tests in src/parser/mod.rs rely on).
 */
module ParserProperties {
  import opened Wrappers
  import opened Lex
  import opened Errors
  import opened Strings
  import opened Scanner
  import opened Nodes
  import opened Parser

  /** The space-split words of `s` lie in `s` from offset 0 and cover it. */
  lemma {:induction false} SplitWordsFrom(s: string)
    ensures WordsFrom(s, 0, Split(s, WordDelimiter))
    ensures WordStart(Split(s, WordDelimiter), |Split(s, WordDelimiter)|) == |s| + 1
  {
    var words := Split(s, WordDelimiter);
    WordsFromJoin(s, 0, words);
    assert words[..|words|] == words;
    WordStartIsJoinedWidth(words, |words|);
  }

  /** `parse` is its loop run over every word of the statement. */
  lemma {:induction false} ParseIsLoop(s: string)
    ensures WordsFrom(s, 0, Split(s, WordDelimiter))
    ensures Parse(s) == ParseWordsUpTo(s, Split(s, WordDelimiter), |Split(s, WordDelimiter)|)
  {
    SplitWordsFrom(s);
  }

  /** The state of `parse` just before word `i` of the statement is acted on. */
  function StateBeforeWord(s: string, i: nat): Result<ParserState, QueryCompilerError>
    requires i <= |Split(s, WordDelimiter)|
  {
    SplitWordsFrom(s);
    ParseWordsUpTo(s, Split(s, WordDelimiter), i)
  }

  /** Once the loop has failed, it stays failed with the same error. */
  lemma {:induction false} FailureSticks(s: string, words: seq<string>, i: nat, j: nat)
    requires WordsFrom(s, 0, words) && i <= j <= |words|
    requires ParseWordsUpTo(s, words, i).Failure?
    ensures ParseWordsUpTo(s, words, j).Failure?
    ensures ParseWordsUpTo(s, words, j).error == ParseWordsUpTo(s, words, i).error
    decreases j - i
  {
    if i < j {
      LoopStopsAtFailure(s, words, i + 1);
      FailureSticks(s, words, i + 1, j);
    }
  }

  lemma {:induction false} LoopStopsAtFailure(s: string, words: seq<string>, j: nat)
    requires WordsFrom(s, 0, words) && 0 < j <= |words|
    requires ParseWordsUpTo(s, words, j - 1).Failure?
    ensures ParseWordsUpTo(s, words, j).Failure?
    ensures ParseWordsUpTo(s, words, j).error == ParseWordsUpTo(s, words, j - 1).error
  {
  }

  /**
   * Before word `i` is acted on, the offset is the start of word `i` in the
   * statement: the lengths of the words before it plus one per word, empty
   * words included; and a parse that succeeds went through that state.
   */
  lemma {:induction false} OffsetIsWordStart(s: string, i: nat)
    requires i < |Split(s, WordDelimiter)|
    ensures var words := Split(s, WordDelimiter);
      WordAt(s, WordStart(words, i), words[i])
    ensures StateBeforeWord(s, i).Success? ==>
      StateBeforeWord(s, i).value.offset == WordStart(Split(s, WordDelimiter), i)
  {
    var words := Split(s, WordDelimiter);
    SplitWordsFrom(s);
    WordAtIndex(s, words, i);
  }

  /** A parse that succeeds went through a successful state before every word. */
  lemma {:induction false} SuccessPassesEveryWord(s: string, i: nat)
    requires i <= |Split(s, WordDelimiter)|
    ensures Parse(s).Success? ==> StateBeforeWord(s, i).Success?
  {
    var words := Split(s, WordDelimiter);
    ParseIsLoop(s);
    if ParseWordsUpTo(s, words, i).Failure? {
      FailureSticks(s, words, i, |words|);
      assert Parse(s).Failure?;
    }
  }

  /**
   * Inside an open directive the keyword is unsupported nesting, and the
   * parse of the whole statement stops there with that error.
   */
  lemma {:induction false} ParseStopsAtNestedKeyword(s: string, i: nat)
    requires i < |Split(s, WordDelimiter)|
    requires Split(s, WordDelimiter)[i] == KeywordCombinedResult
    requires StateBeforeWord(s, i).Success? && IsOpen(StateBeforeWord(s, i).value)
    ensures Parse(s) == Failure(UnsupportedNesting(KeywordCombinedResult, KeywordCombinedResult))
  {
    var words := Split(s, WordDelimiter);
    ParseIsLoop(s);
    WordAtIndex(s, words, i);
    assert KeywordCombinedResult[0] != ParentheseStart;
    assert ParseWordsUpTo(s, words, i + 1) == Failure(UnsupportedNesting(KeywordCombinedResult, KeywordCombinedResult));
    FailureSticks(s, words, i + 1, |words|);
  }

  /** With no directive open, a word other than the keyword leaves the directives alone. */
  lemma {:induction false} LoopStepKeepsNodes(ps: ParserState, word: string)
    requires Valid(ps, ps.offset) && WordAt(ps.statement, ps.offset, word)
    requires !IsOpen(ps) && word != KeywordCombinedResult
    ensures LoopStep(ps, word).Success?
    ensures LoopStep(ps, word).value.combinedResultNodesState == ps.combinedResultNodesState
  {
  }

  lemma {:induction false} LoopWithoutKeyword(s: string, words: seq<string>, i: nat)
    requires WordsFrom(s, 0, words) && i <= |words|
    requires forall k :: 0 <= k < |words| ==> words[k] != KeywordCombinedResult
    ensures ParseWordsUpTo(s, words, i).Success?
    ensures ParseWordsUpTo(s, words, i).value.combinedResultNodesState == NewNodesState()
    decreases i
  {
    if i > 0 {
      LoopWithoutKeyword(s, words, i - 1);
      WordAtIndex(s, words, i - 1);
      LoopStepKeepsNodes(ParseWordsUpTo(s, words, i - 1).value, words[i - 1]);
    }
  }

  /**
   * A statement none of whose words is `combined_result` always parses, and
   * finalising gives no directive and the statement unchanged: the words
   * starting with `(`, `$`, `{` and `}` are ignored while nothing is open.
   */
  lemma {:induction false} NoKeywordNoNodes(s: string)
    requires forall i :: 0 <= i < |Split(s, WordDelimiter)| ==> Split(s, WordDelimiter)[i] != KeywordCombinedResult
    ensures Parse(s).Success?
    ensures AllNodes(Parse(s).value) == [] && !IsOpen(Parse(s).value)
    ensures Finalize(Parse(s).value) == Success(FinalParserState(s, []))
  {
    var words := Split(s, WordDelimiter);
    ParseIsLoop(s);
    LoopWithoutKeyword(s, words, |words|);
  }

  /**
   * A complete directive taken from `s`: the keyword at `beginPosition`, `{`
   * at the scope begin, `}` at `endPosition`, in that order, the inner query
   * the trimmed text between the braces, an iteration query without `)` or
   * `{`, and a `$` variable.
   */
  ghost predicate CompleteNodeOk(s: string, c: CompleteCombinedResultNode) {
    && KeywordAt(s, c.beginPosition)
    && c.beginPosition < c.innerQueryBegin
    && c.innerQueryBegin + 1 < c.endPosition
    && CharAt(s, c.innerQueryBegin, BraceStart)
    && CharAt(s, c.endPosition, BraceEnd)
    && c.innerQuery == Trim(s[c.innerQueryBegin + 1 .. c.endPosition - 1])
    && ParentheseEnd !in c.iterationQuery
    && BraceStart !in c.iterationQuery
    && |c.iterationItemVariable| > 0 && c.iterationItemVariable[0] == VariableStart
  }

  /** The directives handed to code generation: each as above, spans disjoint and in scan order. */
  ghost predicate CompleteNodesOf(s: string, nodes: seq<CompleteCombinedResultNode>) {
    && (forall i :: 0 <= i < |nodes| ==> CompleteNodeOk(s, nodes[i]))
    && (forall i, j :: 0 <= i < j < |nodes| ==> nodes[i].endPosition < nodes[j].beginPosition)
  }

  /**
   * On a directive taken from `s` the accessors of code generation locate
   * its keyword, its `{` and its `}`, in that order.
   */
  lemma {:induction false} NodePositions(s: string, c: CompleteCombinedResultNode)
    requires CompleteNodeOk(s, c)
    ensures KeywordAt(s, GetBeginPosition(c))
    ensures CharAt(s, GetScopeBeginPosition(c), BraceStart) && CharAt(s, GetEndPosition(c), BraceEnd)
    ensures GetBeginPosition(c) < GetScopeBeginPosition(c) < GetEndPosition(c)
  {
  }

  lemma {:induction false} FinishedIsComplete(s: string, c: CompleteCombinedResultNode)
    requires FinishedNodeOk(s, Partial(c))
    ensures CompleteNodeOk(s, c)
  {
    var n := Partial(c);
    assert n == CombinedResultNode(c.beginPosition, Some(c.endPosition), Some(c.iterationQuery),
                                   Some(c.iterationItemVariable), Some(c.innerQueryBegin), Some(c.innerQuery));
  }

  /** What a successful parse and finalisation deliver. */
  lemma {:induction false} ParseFinalizeWellFormed(s: string)
    requires Parse(s).Success? && Finalize(Parse(s).value).Success?
    ensures Finalize(Parse(s).value).value.statement == s
    ensures CompleteNodesOf(s, Finalize(Parse(s).value).value.combinedResultNodes)
  {
    var ps := Parse(s).value;
    var all := AllNodes(ps);
    var nodes := Finalize(ps).value.combinedResultNodes;
    assert FinishedNodesOk(s, all, ps.offset);
    forall i | 0 <= i < |nodes|
      ensures CompleteNodeOk(s, nodes[i])
    {
      assert Partial(nodes[i]) == all[i];
      assert FinishedNodeOk(s, all[i]);
      FinishedIsComplete(s, nodes[i]);
    }
    forall i, j | 0 <= i < j < |nodes|
      ensures nodes[i].endPosition < nodes[j].beginPosition
    {
      assert Partial(nodes[i]) == all[i] && Partial(nodes[j]) == all[j];
      assert EndsBefore(all[i], all[j]);
    }
  }

  // ---------------------------------------------------------------------------
  // Which words open and close directives

  /** The begin positions of `ns`, in order. */
  function BeginsOf(ns: seq<CombinedResultNode>): seq<nat> {
    if |ns| == 0 then [] else BeginsOf(ns[..|ns| - 1]) + [ns[|ns| - 1].beginPosition]
  }

  /** The end positions of the closed nodes of `ns`, in order. */
  function EndsOf(ns: seq<CombinedResultNode>): seq<nat> {
    if |ns| == 0 then []
    else EndsOf(ns[..|ns| - 1]) + (if ns[|ns| - 1].endPosition.Some? then [ns[|ns| - 1].endPosition.value] else [])
  }

  /** Where every directive of `ps` begins: the finished ones, then the open one. */
  function Begins(ps: ParserState): seq<nat> {
    BeginsOf(AllNodes(ps)) + (if IsOpen(ps) then [CurrentNode(ps).beginPosition] else [])
  }

  /** A word whose first character is `}`. */
  predicate ClosesDirective(word: string) {
    |word| > 0 && word[0] == BraceEnd
  }

  /** The starts of the `combined_result` words among the first `k` words. */
  function KeywordStarts(words: seq<string>, k: nat): seq<nat>
    requires k <= |words|
  {
    if k == 0 then []
    else KeywordStarts(words, k - 1) + (if words[k - 1] == KeywordCombinedResult then [WordStart(words, k - 1)] else [])
  }

  /** After the first `k` words a directive is open: a keyword came and no `}` word after it. */
  predicate OpenAfter(words: seq<string>, k: nat)
    requires k <= |words|
  {
    k > 0 && (words[k - 1] == KeywordCombinedResult || (OpenAfter(words, k - 1) && !ClosesDirective(words[k - 1])))
  }

  /** The starts of the `}` words among the first `k` words that came while a directive was open. */
  function ClosingStarts(words: seq<string>, k: nat): seq<nat>
    requires k <= |words|
  {
    if k == 0 then []
    else ClosingStarts(words, k - 1) + (if OpenAfter(words, k - 1) && ClosesDirective(words[k - 1]) then [WordStart(words, k - 1)] else [])
  }

  lemma {:induction false} BeginsOfSnoc(ns: seq<CombinedResultNode>, n: CombinedResultNode)
    ensures BeginsOf(ns + [n]) == BeginsOf(ns) + [n.beginPosition]
    ensures EndsOf(ns + [n]) == EndsOf(ns) + (if n.endPosition.Some? then [n.endPosition.value] else [])
  {
    assert (ns + [n])[..|ns|] == ns;
  }

  /**
   * One word's effect on where directives begin and end: the keyword adds a
   * begin at its offset, a `}` word while a directive is open adds an end at
   * its offset, and a directive is open afterwards exactly when the word was
   * the keyword or one was open and the word is not a `}` word.
   */
  lemma {:induction false} StepRecords(ps: ParserState, word: string, r: Result<ParserState, QueryCompilerError>)
    requires WordAt(ps.statement, ps.offset, word) && ClosableAt(ps, ps.offset)
    requires WordEffect(ps, word, r) && r.Success?
    ensures Begins(r.value) == Begins(ps) + (if word == KeywordCombinedResult then [ps.offset] else [])
    ensures EndsOf(AllNodes(r.value)) ==
      EndsOf(AllNodes(ps)) + (if IsOpen(ps) && ClosesDirective(word) then [ps.offset] else [])
    ensures IsOpen(r.value) <==> word == KeywordCombinedResult || (IsOpen(ps) && !ClosesDirective(word))
  {
    var o := ps.offset;
    match WordToken(word, o)
    case None =>
    case Some(t) =>
      assert TokenOffset(t) == o && ps.statement[o] == word[0];
      assert TokenEffect(ps, t, r);
      if t.ClosingBrace? && IsOpen(ps) {
        BeginsOfSnoc(AllNodes(ps), CloseNode(ps.statement, CurrentNode(ps), o));
      } else if t.OpeningParenthese? && IsOpen(ps) {
        var p :| IterationQueryEnd(ps.statement, o + 1, p);
      }
  }

  /**
   * After the first `i` words, when the loop has not failed: the directives
   * begin at the `combined_result` words, in order; the finished ones end at
   * the `}` words that came while one was open; and one is open exactly when
   * a keyword came with no `}` word after it.
   */
  lemma {:induction false} LoopRecords(s: string, words: seq<string>, i: nat)
    requires WordsFrom(s, 0, words) && i <= |words|
    requires ParseWordsUpTo(s, words, i).Success?
    ensures var ps := ParseWordsUpTo(s, words, i).value;
      && Begins(ps) == KeywordStarts(words, i)
      && EndsOf(AllNodes(ps)) == ClosingStarts(words, i)
      && (IsOpen(ps) <==> OpenAfter(words, i))
    decreases i
  {
    if i > 0 {
      var k := i - 1;
      assert ParseWordsUpTo(s, words, i) == ParseWord(s, words, k);
      assert ParseWordsUpTo(s, words, k).Success?;
      LoopRecords(s, words, k);
      var ps := ParseWordsUpTo(s, words, k).value;
      WordAtIndex(s, words, k);
      AdvanceWordEffect(ps, words[k]);
      StepRecords(ps, words[k], AdvanceWord(ps, words[k]));
    }
  }

  /**
   * A statement that parses has its directives begin at its `combined_result`
   * words, the finished ones end at the `}` words met while one was open, and
   * one is left open exactly when the last keyword has no `}` word after it.
   */
  lemma {:induction false} ParseRecords(s: string)
    requires Parse(s).Success?
    ensures var words := Split(s, WordDelimiter);
      && Begins(Parse(s).value) == KeywordStarts(words, |words|)
      && EndsOf(AllNodes(Parse(s).value)) == ClosingStarts(words, |words|)
      && (IsOpen(Parse(s).value) <==> OpenAfter(words, |words|))
  {
    ParseIsLoop(s);
    LoopRecords(s, Split(s, WordDelimiter), |Split(s, WordDelimiter)|);
  }

  /** The keyword word, with nothing open, opens a fresh directive at its start. */
  lemma {:induction false} KeywordOpensDirective(s: string, i: nat)
    requires i < |Split(s, WordDelimiter)| && Split(s, WordDelimiter)[i] == KeywordCombinedResult
    requires StateBeforeWord(s, i).Success? && !IsOpen(StateBeforeWord(s, i).value)
    ensures StateBeforeWord(s, i + 1).Success?
    ensures var before := StateBeforeWord(s, i).value;
      var after := StateBeforeWord(s, i + 1).value;
      && AllNodes(after) == AllNodes(before)
      && after.combinedResultNodesState.currentNode == Some(NewNode(WordStart(Split(s, WordDelimiter), i)))
  {
    var words := Split(s, WordDelimiter);
    SplitWordsFrom(s);
    var ps := ParseWordsUpTo(s, words, i).value;
    assert ParseWordsUpTo(s, words, i + 1) == ParseWord(s, words, i);
    WordAtIndex(s, words, i);
    AdvanceWordEffect(ps, words[i]);
  }

  /**
   * A `}` word while a directive is open closes it at the word's start and
   * appends it to the finished ones.
   */
  lemma {:induction false} ClosingWordClosesDirective(s: string, i: nat)
    requires i < |Split(s, WordDelimiter)| && ClosesDirective(Split(s, WordDelimiter)[i])
    requires StateBeforeWord(s, i).Success? && IsOpen(StateBeforeWord(s, i).value)
    ensures StateBeforeWord(s, i + 1).Success?
    ensures var before := StateBeforeWord(s, i).value;
      var after := StateBeforeWord(s, i + 1).value;
      var o := WordStart(Split(s, WordDelimiter), i);
      && !IsOpen(after)
      && ClosableAt(before, o) && o <= |s|
      && AllNodes(after) == AllNodes(before) + [CloseNode(s, CurrentNode(before), o)]
  {
    var words := Split(s, WordDelimiter);
    SplitWordsFrom(s);
    var ps := ParseWordsUpTo(s, words, i).value;
    assert ParseWordsUpTo(s, words, i + 1) == ParseWord(s, words, i);
    WordAtIndex(s, words, i);
    AdvanceWordEffect(ps, words[i]);
    assert WordToken(words[i], ps.offset) == Some(ClosingBrace(ps.offset));
    assert TokenEffect(ps, ClosingBrace(ps.offset), AdvanceWord(ps, words[i]));
  }

  lemma {:induction false} BeginsOfIndex(ns: seq<CombinedResultNode>)
    ensures |BeginsOf(ns)| == |ns|
    ensures forall i :: 0 <= i < |ns| ==> BeginsOf(ns)[i] == ns[i].beginPosition
    decreases |ns|
  {
    if |ns| > 0 {
      BeginsOfIndex(ns[..|ns| - 1]);
    }
  }

  lemma {:induction false} EndsOfClosed(ns: seq<CombinedResultNode>)
    requires forall i :: 0 <= i < |ns| ==> ns[i].endPosition.Some?
    ensures |EndsOf(ns)| == |ns|
    ensures forall i :: 0 <= i < |ns| ==> EndsOf(ns)[i] == ns[i].endPosition.value
    decreases |ns|
  {
    if |ns| > 0 {
      EndsOfClosed(ns[..|ns| - 1]);
    }
  }

  /**
   * The directives a successful parse and finalisation deliver are those of
   * the statement's words: directive `i` begins at the `i`-th keyword word
   * and ends at the `i`-th `}` word met while one was open. A directive still
   * open at the end is dropped, so there are fewer directives than keyword
   * words exactly when one is left open.
   */
  lemma {:induction false} FinalizedRecords(s: string)
    requires Parse(s).Success? && Finalize(Parse(s).value).Success?
    ensures var words := Split(s, WordDelimiter);
      var nodes := Finalize(Parse(s).value).value.combinedResultNodes;
      && |nodes| == |ClosingStarts(words, |words|)| <= |KeywordStarts(words, |words|)|
      && (forall i :: 0 <= i < |nodes| ==>
            && nodes[i].beginPosition == KeywordStarts(words, |words|)[i]
            && nodes[i].endPosition == ClosingStarts(words, |words|)[i])
      && (|nodes| < |KeywordStarts(words, |words|)| <==> OpenAfter(words, |words|))
  {
    var ps := Parse(s).value;
    var all := AllNodes(ps);
    var nodes := Finalize(ps).value.combinedResultNodes;
    ParseRecords(s);
    BeginsOfIndex(all);
    assert FinishedNodesOk(ps.statement, all, ps.offset);
    assert forall i :: 0 <= i < |all| ==> FinishedNodeOk(ps.statement, all[i]);
    EndsOfClosed(all);
    forall i | 0 <= i < |nodes|
      ensures nodes[i].beginPosition == BeginsOf(all)[i] && nodes[i].endPosition == EndsOf(all)[i]
    {
      assert Partial(nodes[i]) == all[i];
    }
  }
}
