/**
 * The word-level parser automaton (src/parser/state.rs, src/parser/types.rs).
 *
 * The statement is split on single spaces and the parser state is folded over
 * the words; `offset` is advanced by the word's length plus one after every
 * word. A word equal to `combined_result` opens a directive; while one is
 * open, words starting with `(`, `$`, `{` and `}` fill it in and the `}` word
 * closes it.
 */
module Parser {
  import opened Wrappers
  import opened Lex
  import opened Errors
  import opened Strings
  import opened Scanner
  import opened Nodes

  /** The finished directives, in the order they were closed, and the open one. */
  datatype NodesState<T> = NodesState(allNodes: seq<T>, currentNode: Option<T>)

  function NewNodesState<T>(): NodesState<T> {
    NodesState([], None)
  }

  /**
   * The intermediate automaton. `seenTokenState` records the last token
   * acted on; no transition reads it.
   */
  datatype ParserState = ParserState(
    statement: string,
    seenTokenState: Option<TokenState>,
    combinedResultNodesState: NodesState<CombinedResultNode>,
    offset: nat)

  /** What parsing hands to code generation: the statement and its complete directives. */
  datatype FinalParserState = FinalParserState(
    statement: string,
    combinedResultNodes: seq<CompleteCombinedResultNode>)

  /** The state before the first word: at offset 0, with no directive, where the invariant holds. */
  function Initialize(statement: string): (r: ParserState)
    ensures r.statement == statement && r.offset == 0 && r.seenTokenState == None
    ensures AllNodes(r) == [] && !IsOpen(r)
    ensures Valid(r, 0)
  {
    ParserState(statement, None, NewNodesState(), 0)
  }

  predicate IsOpen(ps: ParserState) {
    ps.combinedResultNodesState.currentNode.Some?
  }

  function AllNodes(ps: ParserState): seq<CombinedResultNode> {
    ps.combinedResultNodesState.allNodes
  }

  function CurrentNode(ps: ParserState): CombinedResultNode
    requires IsOpen(ps)
  {
    ps.combinedResultNodesState.currentNode.value
  }

  /** The directives of `ps` with the open one replaced by `n`. */
  function WithOpen(ps: ParserState, n: CombinedResultNode): NodesState<CombinedResultNode> {
    ps.combinedResultNodesState.(currentNode := Some(n))
  }

  // ---------------------------------------------------------------------------
  // Where things are in the statement

  predicate KeywordAt(s: string, p: nat) {
    p + |KeywordCombinedResult| <= |s| && s[p .. p + |KeywordCombinedResult|] == KeywordCombinedResult
  }

  predicate CharAt(s: string, p: nat, c: char) {
    p < |s| && s[p] == c
  }

  /** `w` is a whole space-delimited word of `s` starting at `o`. */
  predicate WordAt(s: string, o: nat, w: string) {
    && WordDelimiter !in w
    && o + |w| <= |s|
    && s[o .. o + |w|] == w
    && (o + |w| == |s| || s[o + |w|] == WordDelimiter)
  }

  /** `words` lie in `s` one after the other from `o`, each followed by one delimiter. */
  predicate WordsFrom(s: string, o: nat, words: seq<string>)
    decreases |words|
  {
    |words| > 0 ==>
      WordAt(s, o, words[0]) && WordsFrom(s, o + |words[0]| + 1, words[1..])
  }

  /** How far the offset moves over `words`: each word's length plus the delimiter. */
  function JoinedWidth(words: seq<string>): nat {
    if |words| == 0 then 0 else |words[0]| + 1 + JoinedWidth(words[1..])
  }

  /** Where word `k` starts when `words` are laid out from 0, each followed by one delimiter. */
  function WordStart(words: seq<string>, k: nat): nat
    requires k <= |words|
  {
    if k == 0 then 0 else WordStart(words, k - 1) + |words[k - 1]| + 1
  }

  function TokenOffset(t: TokenState): nat {
    match t
    case OpeningParenthese(o) => o
    case OpeningBrace(o) => o
    case ClosingBrace(o) => o
    case CombinedResultsKeyword(o) => o
    case Variable(o) => o
  }

  /** The shortest word that yields token `t`. */
  function TokenWidth(t: TokenState): nat {
    if t.CombinedResultsKeyword? then |KeywordCombinedResult| else 1
  }

  /** The token was produced by a word of `s` at its offset. */
  predicate TokenAt(s: string, t: TokenState) {
    match t
    case CombinedResultsKeyword(o) => KeywordAt(s, o)
    case OpeningParenthese(o) => CharAt(s, o, ParentheseStart)
    case OpeningBrace(o) => CharAt(s, o, BraceStart)
    case ClosingBrace(o) => CharAt(s, o, BraceEnd)
    case Variable(o) => CharAt(s, o, VariableStart)
  }

  /**
   * What acting on token `t` does to the directives, `r` being the outcome:
   * - the keyword opens `NewNode` at its offset when nothing is open, and is
   *   unsupported nesting otherwise;
   * - every other token is ignored while nothing is open;
   * - while a directive is open, `(` records the text from after it up to
   *   the `)` that ends the iteration query, and fails with the missing `{`
   *   or `)` when there is no such `)`; `$`
   *   records its trimmed word as the variable, `{` records its offset as
   *   where the inner query begins, and `}` closes the directive at its
   *   offset and appends it to the finished ones.
   * Only the directive named is touched; the finished ones stay as they are
   * except for the one `}` appends.
   */
  ghost predicate TokenEffect(ps: ParserState, t: TokenState, r: Result<ParserState, QueryCompilerError>)
    requires TokenAt(ps.statement, t) && ClosableAt(ps, TokenOffset(t))
  {
    var o := TokenOffset(t);
    if t.CombinedResultsKeyword? then
      if IsOpen(ps) then r == Failure(UnsupportedNesting(KeywordCombinedResult, KeywordCombinedResult))
      else r.Success? && r.value.combinedResultNodesState == NodesState(AllNodes(ps), Some(NewNode(o)))
    else if !IsOpen(ps) then
      r.Success? && r.value.combinedResultNodesState == ps.combinedResultNodesState
    else match t
      case OpeningParenthese(_) =>
        var s := ps.statement;
        if HasIterationQueryEnd(s, o + 1) then r.Success? && IterationQueryRecorded(ps, o + 1, r.value)
        else
          r == Failure(MissingCharacter(if BraceStart in s[o + 1..] then ParentheseEnd else BraceStart, KeywordCombinedResult))
      case Variable(_) =>
        && r.Success?
        && forall w :: WordAt(ps.statement, o, w) ==>
             r.value.combinedResultNodesState == WithOpen(ps, CurrentNode(ps).(iterationItemVariable := Some(Trim(w))))
      case OpeningBrace(_) =>
        r.Success? && r.value.combinedResultNodesState == WithOpen(ps, CurrentNode(ps).(innerQueryBegin := Some(o)))
      case ClosingBrace(_) =>
        && r.Success?
        && r.value.combinedResultNodesState == NodesState(AllNodes(ps) + [CloseNode(ps.statement, CurrentNode(ps), o)], None)
  }

  // ---------------------------------------------------------------------------
  // The invariant of the automaton

  predicate IterationQueryOk(q: Option<string>) {
    q.Some? ==> ParentheseEnd !in q.value && BraceStart !in q.value
  }

  predicate VariableOk(v: Option<string>) {
    v.Some? ==> |v.value| > 0 && v.value[0] == VariableStart
  }

  /**
   * The open directive: its keyword is at `beginPosition`, its `{` (if seen)
   * follows the keyword, and every word recorded ends before `frontier`.
   */
  predicate OpenNodeOk(s: string, n: CombinedResultNode, frontier: nat) {
    && KeywordAt(s, n.beginPosition)
    && n.beginPosition + |KeywordCombinedResult| < frontier
    && n.endPosition.None?
    && n.innerQuery.None?
    && (n.innerQueryBegin.Some? ==>
          && n.beginPosition < n.innerQueryBegin.value
          && CharAt(s, n.innerQueryBegin.value, BraceStart)
          && n.innerQueryBegin.value + 1 < frontier)
    && IterationQueryOk(n.iterationQuery)
    && VariableOk(n.iterationItemVariable)
  }

  /**
   * A closed directive: keyword at `beginPosition`, `}` at `endPosition`, the
   * `{` strictly between them and the inner query the trimmed text between
   * the braces.
   */
  predicate FinishedNodeOk(s: string, n: CombinedResultNode) {
    && n.endPosition.Some?
    && KeywordAt(s, n.beginPosition)
    && CharAt(s, n.endPosition.value, BraceEnd)
    && n.beginPosition < n.endPosition.value
    && (n.innerQueryBegin.Some? <==> n.innerQuery.Some?)
    && (n.innerQueryBegin.Some? ==>
          && n.beginPosition < n.innerQueryBegin.value
          && n.innerQueryBegin.value + 1 < n.endPosition.value
          && CharAt(s, n.innerQueryBegin.value, BraceStart)
          && n.innerQuery.value == Trim(s[n.innerQueryBegin.value + 1 .. n.endPosition.value - 1]))
    && IterationQueryOk(n.iterationQuery)
    && VariableOk(n.iterationItemVariable)
  }

  predicate EndsBefore(a: CombinedResultNode, b: CombinedResultNode) {
    a.endPosition.Some? && a.endPosition.value < b.beginPosition
  }

  /** Every finished directive ends before position `p`. */
  predicate AllEndBefore(all: seq<CombinedResultNode>, p: int) {
    forall i :: 0 <= i < |all| ==> all[i].endPosition.Some? && all[i].endPosition.value < p
  }

  /**
   * The finished directives are well formed, end before `frontier - 1`, and
   * their spans are disjoint and in scan order.
   */
  predicate FinishedNodesOk(s: string, all: seq<CombinedResultNode>, frontier: nat) {
    && (forall i :: 0 <= i < |all| ==> FinishedNodeOk(s, all[i]))
    && AllEndBefore(all, frontier - 1)
    && (forall i, j :: 0 <= i < j < |all| ==> EndsBefore(all[i], all[j]))
  }

  /** A `}` at `o` can close the open directive: its inner query, if begun, begins before `o - 1`. */
  predicate ClosableAt(ps: ParserState, o: nat) {
    IsOpen(ps) && CurrentNode(ps).innerQueryBegin.Some? ==> CurrentNode(ps).innerQueryBegin.value + 2 <= o
  }

  /**
   * The automaton's invariant when every word acted on so far ends before
   * `frontier`: the finished directives are as above and the open directive
   * starts after all of them.
   */
  predicate Valid(ps: ParserState, frontier: nat) {
    && FinishedNodesOk(ps.statement, AllNodes(ps), frontier)
    && (IsOpen(ps) ==>
          && OpenNodeOk(ps.statement, ps.combinedResultNodesState.currentNode.value, frontier)
          && AllEndBefore(AllNodes(ps), ps.combinedResultNodesState.currentNode.value.beginPosition))
  }

  lemma {:induction false} ValidMonotonic(ps: ParserState, f: nat, f': nat)
    requires Valid(ps, f) && f <= f'
    ensures Valid(ps, f')
  {
  }

  // ---------------------------------------------------------------------------
  // Transitions

  /**
   * The keyword opens a new directive at `offset`; while one is open the
   * keyword is rejected as unsupported nesting.
   */
  function HandleCombinedResultsKeyword(ps: ParserState, offset: nat): (r: Result<ParserState, QueryCompilerError>)
    requires Valid(ps, offset) && KeywordAt(ps.statement, offset)
    ensures r.Failure? <==> IsOpen(ps)
    ensures r.Failure? ==> r.error == UnsupportedNesting(KeywordCombinedResult, KeywordCombinedResult)
    ensures r.Success? ==>
      && AllNodes(r.value) == AllNodes(ps)
      && r.value.combinedResultNodesState.currentNode == Some(NewNode(offset))
      && Valid(r.value, offset + |KeywordCombinedResult| + 1)
  {
    if IsOpen(ps) then
      Failure(UnsupportedNesting(KeywordCombinedResult, KeywordCombinedResult))
    else
      Success(ps.(combinedResultNodesState := ps.combinedResultNodesState.(currentNode := Some(NewNode(offset)))))
  }

  /**
   * `p` ends the iteration query that starts at `cursor`: it is a `)` with
   * neither `)` nor `{` before it from `cursor`, and a `{` follows it.
   */
  predicate IterationQueryEnd(s: string, cursor: nat, p: nat) {
    && cursor <= p < |s|
    && s[p] == ParentheseEnd
    && ParentheseEnd !in s[cursor..p]
    && BraceStart !in s[cursor..p]
    && BraceStart in s[p + 1..]
  }

  /**
   * Records `statement[cursor .. p]` as the open directive's iteration query,
   * where `p` is the first `)` before the first `{` from `cursor`. A missing
   * `{` or `)` is a `MissingCharacter` error.
   */
  function AttachIterationQuery(ps: ParserState, cursor: nat): (r: Result<ParserState, QueryCompilerError>)
    requires cursor <= |ps.statement|
    ensures !IsOpen(ps) ==> r == Success(ps)
    ensures r.Failure? ==>
      && (forall p: nat :: !IterationQueryEnd(ps.statement, cursor, p))
      && r.error == MissingCharacter(
           if BraceStart in ps.statement[cursor..] then ParentheseEnd else BraceStart,
           KeywordCombinedResult)
    ensures r.Success? && IsOpen(ps) ==> QueryAttached(ps, cursor, r.value)
  {
    match ps.combinedResultNodesState.currentNode
    case None => Success(ps)
    case Some(node) =>
      var s := ps.statement;
      match FindIterationQueryEnd(s, cursor)
      case Failure(e) => Failure(e)
      case Success(closingBracePos) =>
        var r := ps.(combinedResultNodesState := WithOpen(ps, node.(iterationQuery := Some(s[cursor .. closingBracePos]))));
        IterationQueryFound(ps, cursor, closingBracePos, r);
        Success(r)
  }

  /**
   * Looks for the `{` that starts the inner query and then for the `)` before it
   * that ends the iteration query; a missing `{`, or a missing `)` before it, is
   * reported as that character missing after the keyword.
   */
  function FindIterationQueryEnd(s: string, cursor: nat): (r: Result<nat, QueryCompilerError>)
    requires cursor <= |s|
    ensures r.Success? ==> IterationQueryEnd(s, cursor, r.value)
    ensures r.Failure? ==>
      && !HasIterationQueryEnd(s, cursor)
      && (forall p: nat :: !IterationQueryEnd(s, cursor, p))
      && r.error == MissingCharacter(
           if BraceStart in s[cursor..] then ParentheseEnd else BraceStart,
           KeywordCombinedResult)
  {
    match GetMandatorySucceedingCharacterPosition(cursor, |s|, s, BraceStart, KeywordCombinedResult)
    case Failure(e) =>
      MissingBraceHasNoEnd(s, cursor);
      Failure(e)
    case Success(braceStartPos) =>
      match GetMandatorySucceedingCharacterPosition(cursor, braceStartPos, s, ParentheseEnd, KeywordCombinedResult)
      case Failure(e) =>
        MissingParenHasNoEnd(s, cursor, braceStartPos);
        Failure(e)
      case Success(closingBracePos) =>
        IterationQueryEndFound(s, cursor, braceStartPos, closingBracePos);
        Success(closingBracePos)
  }

  ghost predicate HasIterationQueryEnd(s: string, cursor: nat) {
    exists p: nat :: IterationQueryEnd(s, cursor, p)
  }

  /** `ps'` is `ps` with the open directive's iteration query set to the text from `cursor` to its end. */
  ghost predicate IterationQueryRecorded(ps: ParserState, cursor: nat, ps': ParserState)
    requires IsOpen(ps)
  {
    forall p: nat :: IterationQueryEnd(ps.statement, cursor, p) ==>
      ps'.combinedResultNodesState == WithOpen(ps, CurrentNode(ps).(iterationQuery := Some(ps.statement[cursor .. p])))
  }

  /**
   * `ps'` is `ps` with the open directive's iteration query set to a text that
   * starts at `cursor`, ends at an iteration query end, and so holds no `)` or `{`.
   */
  predicate QueryAttached(ps: ParserState, cursor: nat, ps': ParserState)
    requires IsOpen(ps)
  {
    && IsOpen(ps')
    && var q := ps'.combinedResultNodesState.currentNode.value.iterationQuery;
    && q.Some?
    && IterationQueryEnd(ps.statement, cursor, cursor + |q.value|)
    && q.value == ps.statement[cursor .. cursor + |q.value|]
    && IterationQueryOk(q)
    && ps' == ps.(combinedResultNodesState := WithOpen(ps, CurrentNode(ps).(iterationQuery := q)))
  }

  /** Once the end `e` is found, recording the text up to it gives a query with no `)` or `{`. */
  lemma {:induction false} IterationQueryFound(ps: ParserState, cursor: nat, e: nat, r: ParserState)
    requires IsOpen(ps) && IterationQueryEnd(ps.statement, cursor, e)
    requires r == ps.(combinedResultNodesState := WithOpen(ps, CurrentNode(ps).(iterationQuery := Some(ps.statement[cursor .. e]))))
    ensures QueryAttached(ps, cursor, r)
  {
    assert cursor + |ps.statement[cursor .. e]| == e;
  }

  /**
   * What `AttachIterationQuery` promises on an open directive, restated per end:
   * it succeeds exactly when the iteration query has an end, and then records the
   * text up to that (unique) end.
   */
  lemma {:induction false} IterationQueryOutcome(ps: ParserState, cursor: nat, r: Result<ParserState, QueryCompilerError>)
    requires IsOpen(ps) && cursor <= |ps.statement|
    requires r.Failure? ==> forall p: nat :: !IterationQueryEnd(ps.statement, cursor, p)
    requires r.Success? ==> QueryAttached(ps, cursor, r.value)
    ensures r.Success? <==> HasIterationQueryEnd(ps.statement, cursor)
    ensures r.Success? ==> IterationQueryRecorded(ps, cursor, r.value)
  {
    var s := ps.statement;
    if r.Success? {
      var e := cursor + |r.value.combinedResultNodesState.currentNode.value.iterationQuery.value|;
      forall p: nat | IterationQueryEnd(s, cursor, p)
        ensures p == e
      {
        IterationQueryEndUnique(s, cursor, p, e);
      }
    }
  }

  /** The iteration query has at most one end: the first `)` from the cursor. */
  lemma {:induction false} IterationQueryEndUnique(s: string, cursor: nat, p: nat, q: nat)
    requires IterationQueryEnd(s, cursor, p) && IterationQueryEnd(s, cursor, q)
    ensures p == q
  {
  }

  lemma {:induction false} MissingBraceHasNoEnd(s: string, cursor: nat)
    requires cursor <= |s| && BraceStart !in s[cursor..]
    ensures forall p: nat :: !IterationQueryEnd(s, cursor, p)
    ensures !HasIterationQueryEnd(s, cursor)
  {
    forall p: nat | IterationQueryEnd(s, cursor, p)
      ensures false
    {
      IterationQueryEndNeedsBrace(s, cursor, p);
    }
  }

  lemma {:induction false} MissingParenHasNoEnd(s: string, cursor: nat, b: nat)
    requires cursor <= b < |s| && s[b] == BraceStart && BraceStart !in s[cursor..b]
    requires ParentheseEnd !in s[cursor..b]
    ensures BraceStart in s[cursor..]
    ensures forall p: nat :: !IterationQueryEnd(s, cursor, p)
    ensures !HasIterationQueryEnd(s, cursor)
  {
    assert s[cursor..][b - cursor] == BraceStart;
    forall p: nat
      ensures !IterationQueryEnd(s, cursor, p)
    {
      IterationQueryEndBeforeBrace(s, cursor, b, p);
    }
  }

  lemma {:induction false} IterationQueryEndFound(s: string, cursor: nat, b: nat, p: nat)
    requires cursor <= p < b < |s|
    requires s[b] == BraceStart && BraceStart !in s[cursor..b]
    requires s[p] == ParentheseEnd && ParentheseEnd !in s[cursor..p]
    ensures IterationQueryEnd(s, cursor, p)
  {
    assert s[cursor..p] == s[cursor..b][..p - cursor];
    assert s[p + 1..][b - p - 1] == s[b];
  }

  lemma {:induction false} IterationQueryEndNeedsBrace(s: string, cursor: nat, p: nat)
    requires IterationQueryEnd(s, cursor, p)
    ensures BraceStart in s[cursor..]
  {
    var k :| 0 <= k < |s[p + 1..]| && s[p + 1..][k] == BraceStart;
    assert s[cursor..][p + 1 + k - cursor] == BraceStart;
  }

  lemma {:induction false} IterationQueryEndBeforeBrace(s: string, cursor: nat, b: nat, p: nat)
    requires cursor <= b <= |s| && BraceStart !in s[cursor..b]
    requires b < |s| ==> s[b] == BraceStart
    requires ParentheseEnd !in s[cursor..b]
    ensures !IterationQueryEnd(s, cursor, p)
  {
  }

  /**
   * Records the trimmed first space-delimited word from `cursor` as the open
   * directive's iteration variable; for a `$` word that is the word itself, trimmed.
   */
  function AttachVariable(ps: ParserState, cursor: nat): (r: ParserState)
    requires cursor <= |ps.statement|
    ensures !IsOpen(ps) ==> r == ps
    ensures IsOpen(ps) ==> IsOpen(r)
    ensures IsOpen(ps) && IsOpen(r) ==>
      var v := r.combinedResultNodesState.currentNode.value.iterationItemVariable;
      && (forall w :: WordAt(ps.statement, cursor, w) ==> v == Some(Trim(w)))
      && (CharAt(ps.statement, cursor, VariableStart) ==> VariableOk(v))
      && r == ps.(combinedResultNodesState := ps.combinedResultNodesState.(currentNode :=
           Some(ps.combinedResultNodesState.currentNode.value.(iterationItemVariable := v))))
  {
    var s := ps.statement;
    var wordsBeyondCursor := Split(s[cursor..], WordDelimiter);
    var foundVariable := wordsBeyondCursor[0];
    match ps.combinedResultNodesState.currentNode
    case None => ps
    case Some(node) =>
      FirstWordFacts(s, cursor);
      var node' := node.(iterationItemVariable := Some(Trim(foundVariable)));
      ps.(combinedResultNodesState := ps.combinedResultNodesState.(currentNode := Some(node')))
  }

  lemma {:induction false} FirstWordFacts(s: string, cursor: nat)
    requires cursor <= |s|
    ensures forall w :: WordAt(s, cursor, w) ==> Split(s[cursor..], WordDelimiter)[0] == w
    ensures CharAt(s, cursor, VariableStart) ==>
      var t := Trim(Split(s[cursor..], WordDelimiter)[0]);
      |t| > 0 && t[0] == VariableStart
  {
    var t := s[cursor..];
    forall w | WordAt(s, cursor, w)
      ensures Split(t, WordDelimiter)[0] == w
    {
      assert t[..|w|] == s[cursor .. cursor + |w|];
      FirstWordAt(t, WordDelimiter, w);
    }
    if CharAt(s, cursor, VariableStart) {
      var h := Split(t, WordDelimiter)[0];
      SplitHead(t, WordDelimiter);
      assert h[0] == VariableStart;
      assert LeadingWhitespace(h) == 0;
      TrimSpec(h);
    }
  }

  /** Records `cursor`, the offset of a `{` word, as where the open directive's inner query begins. */
  function MarkInnerQueryBegin(ps: ParserState, cursor: nat): (r: ParserState)
    ensures !IsOpen(ps) ==> r == ps
    ensures IsOpen(ps) ==>
      r == ps.(combinedResultNodesState := ps.combinedResultNodesState.(currentNode :=
        Some(ps.combinedResultNodesState.currentNode.value.(innerQueryBegin := Some(cursor)))))
  {
    match ps.combinedResultNodesState.currentNode
    case None => ps
    case Some(node) =>
      ps.(combinedResultNodesState := ps.combinedResultNodesState.(currentNode :=
        Some(node.(innerQueryBegin := Some(cursor)))))
  }

  /**
   * The open directive `node` closed by the `}` word at `offset`: its end is
   * `offset` and its inner query the trimmed text strictly between its `{`
   * and the `}` (when a `{` was seen); nothing else changes. Rust would panic
   * on a reversed or out-of-range slice, hence the precondition.
   */
  function CloseNode(s: string, node: CombinedResultNode, offset: nat): (closed: CombinedResultNode)
    requires node.innerQueryBegin.Some? ==> node.innerQueryBegin.value + 2 <= offset <= |s| + 1
    ensures closed.endPosition == Some(offset)
    ensures closed.innerQuery ==
      (if node.innerQueryBegin.Some?
       then Some(Trim(s[node.innerQueryBegin.value + 1 .. offset - 1]))
       else node.innerQuery)
    ensures closed.beginPosition == node.beginPosition
    ensures closed.iterationQuery == node.iterationQuery
    ensures closed.iterationItemVariable == node.iterationItemVariable
    ensures closed.innerQueryBegin == node.innerQueryBegin
    ensures OpenNodeOk(s, node, offset) && CharAt(s, offset, BraceEnd) ==> FinishedNodeOk(s, closed)
  {
    var node1 :=
      if node.innerQueryBegin.Some? then
        var sliceStart := node.innerQueryBegin.value + 1;
        var sliceEnd := offset - 1;
        node.(innerQuery := Some(Trim(s[sliceStart .. sliceEnd])))
      else node;
    var closed := node1.(endPosition := Some(offset));
    if OpenNodeOk(s, node, offset) && CharAt(s, offset, BraceEnd) then
      ClosedNodeOk(s, node, closed, offset);
      closed
    else closed
  }

  /** Closes the open directive and appends it to the finished ones; nothing is open afterwards. */
  function FinalizeCombinedResultNode(ps: ParserState, offset: nat): (r: ParserState)
    requires IsOpen(ps) && ps.combinedResultNodesState.currentNode.value.innerQueryBegin.Some? ==>
      ps.combinedResultNodesState.currentNode.value.innerQueryBegin.value + 2 <= offset <= |ps.statement| + 1
    ensures !IsOpen(ps) ==> r == ps
    ensures IsOpen(ps) ==>
      && !IsOpen(r)
      && AllNodes(r) == AllNodes(ps) + [CloseNode(ps.statement, ps.combinedResultNodesState.currentNode.value, offset)]
      && r.statement == ps.statement && r.offset == ps.offset && r.seenTokenState == ps.seenTokenState
  {
    match ps.combinedResultNodesState.currentNode
    case None => ps
    case Some(node) =>
      ps.(combinedResultNodesState :=
        NodesState(ps.combinedResultNodesState.allNodes + [CloseNode(ps.statement, node, offset)], None))
  }

  /** Dispatches a token; every token but the keyword is ignored while no directive is open. */
  function HandleTransition(ps: ParserState, current: TokenState): (r: Result<ParserState, QueryCompilerError>)
    requires Valid(ps, TokenOffset(current)) && TokenAt(ps.statement, current)
    ensures r.Success? ==>
      && r.value.statement == ps.statement
      && r.value.offset == ps.offset
      && r.value.seenTokenState == ps.seenTokenState
      && Valid(r.value, TokenOffset(current) + TokenWidth(current) + 1)

    ensures r.Failure? ==>
      || (current.CombinedResultsKeyword? && r.error == UnsupportedNesting(KeywordCombinedResult, KeywordCombinedResult))
      || (current.OpeningParenthese? && r.error.MissingCharacter?)
  {
    match current
    case CombinedResultsKeyword(offset) => HandleCombinedResultsKeyword(ps, offset)
    case _ => if IsOpen(ps) then HandleInsideDirective(ps, current) else Success(ps)
  }

  /** The tokens other than the keyword, which act only while a directive is open. */
  function HandleInsideDirective(ps: ParserState, current: TokenState): (r: Result<ParserState, QueryCompilerError>)
    requires Valid(ps, TokenOffset(current)) && TokenAt(ps.statement, current)
    requires IsOpen(ps) && !current.CombinedResultsKeyword?
    ensures r.Success? ==>
      && r.value.statement == ps.statement
      && r.value.offset == ps.offset
      && r.value.seenTokenState == ps.seenTokenState
      && Valid(r.value, TokenOffset(current) + 2)
    ensures r.Failure? ==> current.OpeningParenthese? && r.error.MissingCharacter?
  {
    match current
    case OpeningParenthese(offset) => HandleOpeningParenthese(ps, offset)
    case Variable(offset) =>
      var r := AttachVariable(ps, offset);
      AttachVariableValid(ps, offset, r);
      Success(r)
    case OpeningBrace(offset) =>
      var r := MarkInnerQueryBegin(ps, offset);
      MarkInnerQueryBeginValid(ps, offset, r);
      Success(r)
    case ClosingBrace(offset) =>
      var r := FinalizeCombinedResultNode(ps, offset);
      FinalizeValid(ps, offset, r);
      Success(r)
  }

  /** The `(` after an open directive's keyword: its iteration query runs to the matching `)`. */
  function HandleOpeningParenthese(ps: ParserState, offset: nat): (r: Result<ParserState, QueryCompilerError>)
    requires Valid(ps, offset) && CharAt(ps.statement, offset, ParentheseStart) && IsOpen(ps)
    ensures r.Success? ==>
      && r.value.statement == ps.statement && r.value.offset == ps.offset
      && r.value.seenTokenState == ps.seenTokenState
      && Valid(r.value, offset + 2)
    ensures r.Failure? ==> r.error.MissingCharacter?
    ensures r == AttachIterationQuery(ps, offset + 1)
  {
    var r := AttachIterationQuery(ps, offset + 1);
    AttachIterationQueryValid(ps, offset, r);
    r
  }

  /** The outcome `AttachIterationQuery` promises after a `(` word is that token's effect. */
  lemma {:induction false} ParentheseEffect(ps: ParserState, offset: nat, r: Result<ParserState, QueryCompilerError>)
    requires CharAt(ps.statement, offset, ParentheseStart) && IsOpen(ps) && ClosableAt(ps, offset)
    requires r.Success? <==> HasIterationQueryEnd(ps.statement, offset + 1)
    requires r.Success? ==> IterationQueryRecorded(ps, offset + 1, r.value)
    requires r.Failure? ==> r.error == MissingCharacter(
      if BraceStart in ps.statement[offset + 1..] then ParentheseEnd else BraceStart, KeywordCombinedResult)
    ensures TokenEffect(ps, OpeningParenthese(offset), r)
  {
  }

  /** Recording an iteration query without `)` or `{` after a `(` word preserves the invariant. */
  lemma {:induction false} AttachIterationQueryValid(ps: ParserState, offset: nat, r: Result<ParserState, QueryCompilerError>)
    requires Valid(ps, offset) && CharAt(ps.statement, offset, ParentheseStart) && IsOpen(ps)
    requires r.Success? ==> QueryAttached(ps, offset + 1, r.value)
    ensures r.Success? ==> Valid(r.value, offset + 2)
  {
  }

  lemma {:induction false} AttachVariableValid(ps: ParserState, offset: nat, r: ParserState)
    requires Valid(ps, offset) && CharAt(ps.statement, offset, VariableStart) && IsOpen(ps)
    requires r == AttachVariable(ps, offset)
    ensures Valid(r, offset + 2)
    ensures TokenEffect(ps, Variable(offset), Success(r))
  {
    ValidMonotonic(ps, offset, offset + 2);
  }

  lemma {:induction false} MarkInnerQueryBeginValid(ps: ParserState, offset: nat, r: ParserState)
    requires Valid(ps, offset) && CharAt(ps.statement, offset, BraceStart) && IsOpen(ps)
    requires r == MarkInnerQueryBegin(ps, offset)
    ensures Valid(r, offset + 2)
    ensures TokenEffect(ps, OpeningBrace(offset), Success(r))
  {
  }

  lemma {:induction false} FinalizeValid(ps: ParserState, offset: nat, r: ParserState)
    requires Valid(ps, offset) && CharAt(ps.statement, offset, BraceEnd) && IsOpen(ps)
    requires r == FinalizeCombinedResultNode(ps, offset)
    ensures Valid(r, offset + 2)
    ensures TokenEffect(ps, ClosingBrace(offset), Success(r))
  {
    var node := ps.combinedResultNodesState.currentNode.value;
    AppendFinished(ps.statement, AllNodes(ps), CloseNode(ps.statement, node, offset), offset);
  }

  lemma {:induction false} ClosedNodeOk(s: string, node: CombinedResultNode, closed: CombinedResultNode, offset: nat)
    requires OpenNodeOk(s, node, offset) && CharAt(s, offset, BraceEnd)
    requires closed.endPosition == Some(offset)
    requires closed.innerQuery == (if node.innerQueryBegin.Some?
      then Some(Trim(s[node.innerQueryBegin.value + 1 .. offset - 1])) else node.innerQuery)
    requires closed.beginPosition == node.beginPosition
    requires closed.innerQueryBegin == node.innerQueryBegin
    requires closed.iterationQuery == node.iterationQuery
    requires closed.iterationItemVariable == node.iterationItemVariable
    ensures FinishedNodeOk(s, closed)
  {
    assert KeywordAt(s, closed.beginPosition) && CharAt(s, closed.endPosition.value, BraceEnd);
    assert IterationQueryOk(closed.iterationQuery) && VariableOk(closed.iterationItemVariable);
    if node.innerQueryBegin.Some? {
      var b := node.innerQueryBegin.value;
      var inner := Trim(s[b + 1 .. offset - 1]);
      assert closed.innerQueryBegin.value == b && closed.endPosition.value == offset;
      assert s[closed.innerQueryBegin.value + 1 .. closed.endPosition.value - 1] == s[b + 1 .. offset - 1];
      assert closed.innerQuery == Some(inner);
    }
  }

  lemma {:induction false} AppendFinished(s: string, all: seq<CombinedResultNode>, closed: CombinedResultNode, offset: nat)
    requires FinishedNodesOk(s, all, offset)
    requires FinishedNodeOk(s, closed) && closed.endPosition == Some(offset)
    requires AllEndBefore(all, closed.beginPosition)
    ensures FinishedNodesOk(s, all + [closed], offset + 2)
  {
    var all' := all + [closed];
    forall i | 0 <= i < |all'|
      ensures FinishedNodeOk(s, all'[i])
    {
      if i < |all| {
        assert all'[i] == all[i];
      }
    }
    forall i, j | 0 <= i < j < |all'|
      ensures EndsBefore(all'[i], all'[j])
    {
      assert all'[i] == all[i];
      if j < |all| {
        assert all'[j] == all[j];
      }
    }
  }

  // ---------------------------------------------------------------------------
  // Words

  /** The token a word's initiator character stands for at `offset`: only `(`, `$`, `{` and `}` have one. */
  function InitiatorToken(word: string, offset: nat): Option<TokenState> {
    if |word| == 0 then None
    else if word[0] == ParentheseStart then Some(OpeningParenthese(offset))
    else if word[0] == VariableStart then Some(Variable(offset))
    else if word[0] == BraceStart then Some(OpeningBrace(offset))
    else if word[0] == BraceEnd then Some(ClosingBrace(offset))
    else None
  }

  /** The token `word` stands for at `offset`: the keyword, else that of its initiator character. */
  function WordToken(word: string, offset: nat): Option<TokenState> {
    if word == KeywordCombinedResult then Some(CombinedResultsKeyword(offset))
    else InitiatorToken(word, offset)
  }

  /** The parser state of a word step's outcome, without the token it yielded. */
  function StateOf(r: Result<(ParserState, Option<TokenState>), QueryCompilerError>)
    : Result<ParserState, QueryCompilerError>
  {
    match r
    case Success(v) => Success(v.0)
    case Failure(e) => Failure(e)
  }

  /** The keyword word moves the automaton; any other word is left to the initiator characters. */
  function TryForwardToKeywordSeenState(ps: ParserState, word: string)
    : (r: Result<(ParserState, Option<TokenState>), QueryCompilerError>)
    requires Valid(ps, ps.offset) && WordAt(ps.statement, ps.offset, word)
    ensures r.Success? ==>
      r.value.1 == (if word == KeywordCombinedResult then Some(CombinedResultsKeyword(ps.offset)) else None)
    ensures word != KeywordCombinedResult ==> r == Success((ps, None))
    ensures r.Success? ==>
      && r.value.0.statement == ps.statement && r.value.0.offset == ps.offset
      && Valid(r.value.0, ps.offset + |word| + 1)
    ensures r.Failure? ==>
      word == KeywordCombinedResult && IsOpen(ps)
      && r.error == UnsupportedNesting(KeywordCombinedResult, KeywordCombinedResult)
  {
    if word in ValidKeywords then
      var current := FromKeyword(word, ps.offset).value;
      var ps' :- HandleTransition(ps, current);
      Success((ps', Some(current)))
    else
      Success((ps, None))
  }

  /** The token a word's first character stands for, at the current offset. */
  function GetScannerStateByCharToken(ps: ParserState, token: char): (r: Option<TokenState>)
    ensures token == BraceStart ==> r == Some(OpeningBrace(ps.offset))
    ensures token == BraceEnd ==> r == Some(ClosingBrace(ps.offset))
    ensures token == ParentheseStart ==> r == Some(OpeningParenthese(ps.offset))
    ensures token == VariableStart ==> r == Some(Variable(ps.offset))
    ensures r.Some? <==> token in {BraceStart, BraceEnd, ParentheseStart, VariableStart}
    ensures r.Some? ==> TokenOffset(r.value) == ps.offset && !r.value.CombinedResultsKeyword?
  {
    if token == BraceStart then Some(OpeningBrace(ps.offset))
    else if token == BraceEnd then Some(ClosingBrace(ps.offset))
    else if token == ParentheseStart then Some(OpeningParenthese(ps.offset))
    else if token == VariableStart then Some(Variable(ps.offset))
    else None
  }

  /** The transition for the initiator token found at the start of `word`. */
  function ForwardInitiator(ps: ParserState, word: string, t: TokenState)
    : (r: Result<ParserState, QueryCompilerError>)
    requires Valid(ps, ps.offset) && WordAt(ps.statement, ps.offset, word)
    requires |word| > 0 && GetScannerStateByCharToken(ps, word[0]) == Some(t)
    ensures r.Success? ==>
      && r.value.statement == ps.statement && r.value.offset == ps.offset
      && r.value.seenTokenState == ps.seenTokenState
      && Valid(r.value, ps.offset + |word| + 1)
    ensures r.Failure? ==> word[0] == ParentheseStart && IsOpen(ps) && r.error.MissingCharacter?
  {
    assert word[0] == ps.statement[ps.offset];
    var ps' :- HandleTransition(ps, t);
    ValidMonotonic(ps', ps.offset + 2, ps.offset + |word| + 1);
    Success(ps')
  }

  /** A word starting with `(`, `$`, `{` or `}` is dispatched as that token. */
  function TryForwardToInitiatorCharBasedState(ps: ParserState, word: string)
    : (r: Result<(ParserState, Option<TokenState>), QueryCompilerError>)
    requires Valid(ps, ps.offset) && WordAt(ps.statement, ps.offset, word)
    ensures r.Success? ==> r.value.1 == InitiatorToken(word, ps.offset)
    ensures InitiatorToken(word, ps.offset).None? ==> r == Success((ps, None))
    ensures r.Success? ==> r.value.0.seenTokenState == ps.seenTokenState
    ensures r.Success? ==>
      && r.value.0.statement == ps.statement && r.value.0.offset == ps.offset
      && Valid(r.value.0, ps.offset + |word| + 1)
    ensures r.Failure? ==> |word| > 0 && word[0] == ParentheseStart && IsOpen(ps) && r.error.MissingCharacter?
  {
    if |word| > 0 then
      var initiator := word[0];
      var stateCandidate := GetScannerStateByCharToken(ps, initiator);
      if stateCandidate.Some? then
        var ps' :- ForwardInitiator(ps, word, stateCandidate.value);
        Success((ps', stateCandidate))
      else
        ValidMonotonic(ps, ps.offset, ps.offset + |word| + 1);
        Success((ps, None))
    else
      ValidMonotonic(ps, ps.offset, ps.offset + 1);
      Success((ps, None))
  }

  /**
   * One word: the keyword is tried first, then the initiator character; the
   * token acted on becomes the seen token. Only the keyword inside an open
   * directive and a `(` word without its `{` and `)` fail.
   */
  function AdvanceWord(ps: ParserState, word: string): (r: Result<ParserState, QueryCompilerError>)
    requires Valid(ps, ps.offset) && WordAt(ps.statement, ps.offset, word)
    ensures r.Success? ==>
      && r.value.statement == ps.statement
      && r.value.offset == ps.offset
      && Valid(r.value, ps.offset + |word| + 1)
    ensures r.Failure? ==>
      || (word == KeywordCombinedResult && IsOpen(ps)
          && r.error == UnsupportedNesting(KeywordCombinedResult, KeywordCombinedResult))
      || (|word| > 0 && word[0] == ParentheseStart && IsOpen(ps) && r.error.MissingCharacter?)
    ensures word == KeywordCombinedResult ==> (r.Failure? <==> IsOpen(ps))
    ensures !IsOpen(ps) && word != KeywordCombinedResult ==>
      r.Success? && r.value.combinedResultNodesState == ps.combinedResultNodesState
  {
    var kw :- TryForwardToKeywordSeenState(ps, word);
    if kw.1.Some? then
      Success(kw.0.(seenTokenState := kw.1))
    else
      var initiator :- TryForwardToInitiatorCharBasedState(kw.0, word);
      if initiator.1.Some? then Success(initiator.0.(seenTokenState := initiator.1))
      else Success(initiator.0)
  }

  /**
   * What acting on `word` does to the directives, `r` being the outcome: the
   * token it stands for has its `TokenEffect`, and a word standing for no
   * token changes nothing.
   */
  ghost predicate WordEffect(ps: ParserState, word: string, r: Result<ParserState, QueryCompilerError>)
    requires WordAt(ps.statement, ps.offset, word) && ClosableAt(ps, ps.offset)
  {
    match WordToken(word, ps.offset)
    case None => r == Success(ps)
    case Some(t) =>
      assert TokenOffset(t) == ps.offset && ps.statement[ps.offset] == word[0];
      TokenEffect(ps, t, r)
  }

  /** A token's effect concerns the directives and the error only, not the token recorded as seen. */
  lemma {:induction false} EffectIgnoresSeenToken(ps: ParserState, t: TokenState,
                                                  a: Result<ParserState, QueryCompilerError>,
                                                  b: Result<ParserState, QueryCompilerError>)
    requires TokenAt(ps.statement, t) && ClosableAt(ps, TokenOffset(t))
    requires TokenEffect(ps, t, a)
    requires a.Failure? ==> b == a
    requires a.Success? ==> b.Success? && b.value.combinedResultNodesState == a.value.combinedResultNodesState
    ensures TokenEffect(ps, t, b)
  {
  }

  /** While a directive is open, `HandleInsideDirective` has the effect of `(`, `$`, `{` and `}`. */
  lemma {:induction false} InsideDirectiveEffect(ps: ParserState, t: TokenState)
    requires Valid(ps, TokenOffset(t)) && TokenAt(ps.statement, t)
    requires IsOpen(ps) && !t.CombinedResultsKeyword?
    ensures TokenEffect(ps, t, HandleInsideDirective(ps, t))
  {
    match t
    case OpeningParenthese(o) =>
      var r := HandleOpeningParenthese(ps, o);
      IterationQueryOutcome(ps, o + 1, r);
      ParentheseEffect(ps, o, r);
    case Variable(o) => AttachVariableValid(ps, o, AttachVariable(ps, o));
    case OpeningBrace(o) => MarkInnerQueryBeginValid(ps, o, MarkInnerQueryBegin(ps, o));
    case ClosingBrace(o) => FinalizeValid(ps, o, FinalizeCombinedResultNode(ps, o));
  }

  /** `HandleTransition` has, for every token, the effect `TokenEffect` describes. */
  lemma {:induction false} TransitionEffect(ps: ParserState, t: TokenState)
    requires Valid(ps, TokenOffset(t)) && TokenAt(ps.statement, t)
    ensures TokenEffect(ps, t, HandleTransition(ps, t))
  {
    if IsOpen(ps) && !t.CombinedResultsKeyword? {
      InsideDirectiveEffect(ps, t);
    }
  }

  /** The keyword word has the keyword's effect. */
  lemma {:induction false} KeywordStepEffect(ps: ParserState, word: string)
    requires Valid(ps, ps.offset) && WordAt(ps.statement, ps.offset, word)
    requires word == KeywordCombinedResult
    ensures TokenEffect(ps, CombinedResultsKeyword(ps.offset), StateOf(TryForwardToKeywordSeenState(ps, word)))
  {
    TransitionEffect(ps, CombinedResultsKeyword(ps.offset));
  }

  /** A word starting with `(`, `$`, `{` or `}` has the effect of that token. */
  lemma {:induction false} InitiatorStepEffect(ps: ParserState, word: string)
    requires Valid(ps, ps.offset) && WordAt(ps.statement, ps.offset, word)
    requires InitiatorToken(word, ps.offset).Some?
    ensures TokenEffect(ps, InitiatorToken(word, ps.offset).value,
      StateOf(TryForwardToInitiatorCharBasedState(ps, word)))
  {
    assert word[0] == ps.statement[ps.offset];
    TransitionEffect(ps, InitiatorToken(word, ps.offset).value);
  }

  /**
   * `AdvanceWord` has the effect of the token its word stands for, and that
   * token becomes the seen token; a word standing for no token changes nothing.
   */
  lemma {:induction false} AdvanceWordEffect(ps: ParserState, word: string)
    requires Valid(ps, ps.offset) && WordAt(ps.statement, ps.offset, word)
    ensures WordEffect(ps, word, AdvanceWord(ps, word))
    ensures var r := AdvanceWord(ps, word);
      r.Success? ==> r.value.seenTokenState == if WordToken(word, ps.offset).Some? then WordToken(word, ps.offset) else ps.seenTokenState
  {
    var r := AdvanceWord(ps, word);
    if word == KeywordCombinedResult {
      KeywordStepEffect(ps, word);
      EffectIgnoresSeenToken(ps, CombinedResultsKeyword(ps.offset), StateOf(TryForwardToKeywordSeenState(ps, word)), r);
    } else if InitiatorToken(word, ps.offset).Some? {
      InitiatorStepEffect(ps, word);
      EffectIgnoresSeenToken(ps, InitiatorToken(word, ps.offset).value,
        StateOf(TryForwardToInitiatorCharBasedState(ps, word)), r);
    }
  }

  function AdvanceOffset(ps: ParserState, word: string): ParserState {
    ps.(offset := ps.offset + |word| + 1)
  }

  /** The invariant does not depend on the offset field. */
  lemma {:induction false} AdvanceOffsetValid(ps: ParserState, word: string, frontier: nat)
    requires Valid(ps, frontier)
    ensures Valid(AdvanceOffset(ps, word), frontier)
  {
    var ps' := AdvanceOffset(ps, word);
    assert ps'.statement == ps.statement && ps'.combinedResultNodesState == ps.combinedResultNodesState;
  }

  /**
   * The loop of `parse` after its first `i` words: each word is acted on and
   * the offset then moves past it and its delimiter; the first error ends
   * the loop. Before word `i` the offset is that word's start.
   */
  function ParseWordsUpTo(s: string, words: seq<string>, i: nat): (r: Result<ParserState, QueryCompilerError>)
    requires WordsFrom(s, 0, words) && i <= |words|
    ensures r.Success? ==>
      && r.value.statement == s
      && r.value.offset == WordStart(words, i)
      && Valid(r.value, r.value.offset)
    ensures r.Failure? ==>
      || r.error == UnsupportedNesting(KeywordCombinedResult, KeywordCombinedResult)
      || r.error.MissingCharacter?
    decreases i, 0
  {
    if i == 0 then Success(Initialize(s)) else ParseWord(s, words, i - 1)
  }

  /** Iteration `k` of the loop: the words before word `k`, then word `k` itself. */
  function ParseWord(s: string, words: seq<string>, k: nat): (r: Result<ParserState, QueryCompilerError>)
    requires WordsFrom(s, 0, words) && k < |words|
    ensures r.Success? ==>
      && r.value.statement == s
      && r.value.offset == WordStart(words, k + 1)
      && Valid(r.value, r.value.offset)
    ensures r.Failure? ==>
      || r.error == UnsupportedNesting(KeywordCombinedResult, KeywordCombinedResult)
      || r.error.MissingCharacter?
    decreases k, 1
  {
    var ps :- ParseWordsUpTo(s, words, k);
    WordAtIndex(s, words, k);
    LoopStep(ps, words[k])
  }

  /** The body of `parse`'s loop: act on the word, then move the offset past it and its delimiter. */
  function LoopStep(ps: ParserState, word: string): (r: Result<ParserState, QueryCompilerError>)
    requires Valid(ps, ps.offset) && WordAt(ps.statement, ps.offset, word)
    ensures r.Success? ==>
      && r.value.statement == ps.statement
      && r.value.offset == ps.offset + |word| + 1
      && Valid(r.value, r.value.offset)
    ensures r.Failure? ==> r == AdvanceWord(ps, word)
    ensures r.Success? <==> AdvanceWord(ps, word).Success?
    ensures r.Success? ==> r.value == AdvanceOffset(AdvanceWord(ps, word).value, word)
  {
    var ps1 :- AdvanceWord(ps, word);
    AdvanceOffsetValid(ps1, word, ps.offset + |word| + 1);
    Success(AdvanceOffset(ps1, word))
  }

  lemma {:induction false} JoinedWidthAppend(a: seq<string>, b: seq<string>)
    ensures JoinedWidth(a + b) == JoinedWidth(a) + JoinedWidth(b)
  {
    if |a| > 0 {
      assert (a + b)[1..] == a[1..] + b;
      JoinedWidthAppend(a[1..], b);
    } else {
      assert a + b == b;
    }
  }

  lemma {:induction false} JoinedWidthSnoc(words: seq<string>, k: nat)
    requires k < |words|
    ensures JoinedWidth(words[..k + 1]) == JoinedWidth(words[..k]) + |words[k]| + 1
  {
    assert words[..k + 1] == words[..k] + [words[k]];
    JoinedWidthAppend(words[..k], [words[k]]);
  }

  lemma {:induction false} WordsFromSuffix(s: string, o: nat, words: seq<string>, k: nat)
    requires WordsFrom(s, o, words) && k <= |words|
    ensures WordsFrom(s, o + JoinedWidth(words[..k]), words[k..])
    decreases k
  {
    if k > 0 {
      assert words[..k][1..] == words[1..][..k - 1];
      assert words[k..] == words[1..][k - 1..];
      WordsFromSuffix(s, o + |words[0]| + 1, words[1..], k - 1);
    }
  }

  lemma {:induction false} WordStartIsJoinedWidth(words: seq<string>, k: nat)
    requires k <= |words|
    ensures WordStart(words, k) == JoinedWidth(words[..k])
    decreases k
  {
    if k > 0 {
      WordStartIsJoinedWidth(words, k - 1);
      JoinedWidthSnoc(words, k - 1);
    } else {
      assert words[..0] == [];
    }
  }

  /** Word `k` starts after the words before it, each with its delimiter. */
  lemma {:induction false} WordAtIndex(s: string, words: seq<string>, k: nat)
    requires WordsFrom(s, 0, words) && k < |words|
    ensures WordAt(s, WordStart(words, k), words[k])
  {
    WordsFromSuffix(s, 0, words, k);
    WordStartIsJoinedWidth(words, k);
    assert words[k..][0] == words[k];
  }

  lemma {:induction false} WordsFromJoin(s: string, o: nat, words: seq<string>)
    requires |words| >= 1 && o <= |s|
    requires forall i :: 0 <= i < |words| ==> WordDelimiter !in words[i]
    requires s[o..] == Join(words, WordDelimiter)
    ensures WordsFrom(s, o, words)
    ensures JoinedWidth(words) == |s| - o + 1
    decreases |words|
  {
    var w := words[0];
    if |words| == 1 {
      assert s[o..] == w;
      assert s[o .. o + |w|] == w;
    } else {
      var rest := Join(words[1..], WordDelimiter);
      assert s[o..] == w + [WordDelimiter] + rest;
      JoinParts(s, o, w, rest);
      WordsFromJoin(s, o + |w| + 1, words[1..]);
    }
  }

  /** A suffix that reads `w`, a delimiter and `rest` has `w` at `o` and `rest` after the delimiter. */
  lemma {:induction false} JoinParts(s: string, o: nat, w: string, rest: string)
    requires o <= |s| && s[o..] == w + [WordDelimiter] + rest
    ensures o + |w| < |s|
    ensures s[o .. o + |w|] == w && s[o + |w|] == WordDelimiter && s[o + |w| + 1..] == rest
  {
    assert s[o..][..|w|] == w;
    assert s[o..][|w| + 1..] == rest;
  }

  /**
   * `parse`: folds the automaton over the space-split words. On success the
   * offset is one past the end of the statement and the invariant holds;
   * `ParsedNodesFacts` spells out what that means for the directives.
   */
  function Parse(statement: string): (r: Result<ParserState, QueryCompilerError>)
    ensures r.Success? ==>
      && r.value.statement == statement
      && r.value.offset == |statement| + 1
      && Valid(r.value, r.value.offset)
    ensures r.Failure? ==>
      || r.error == UnsupportedNesting(KeywordCombinedResult, KeywordCombinedResult)
      || r.error.MissingCharacter?
  {
    var words := Split(statement, WordDelimiter);
    WordsFromJoin(statement, 0, words);
    assert words[..|words|] == words;
    WordStartIsJoinedWidth(words, |words|);
    ParseWordsUpTo(statement, words, |words|)
  }

  /**
   * Every directive a successful parse finished has its keyword at
   * `beginPosition`, its `}` at `endPosition`, its `{` (if any) strictly
   * between them with the inner query the trimmed text between the braces,
   * and lies wholly before the next one.
   */
  lemma {:induction false} ParsedNodesFacts(s: string)
    requires Parse(s).Success?
    ensures var all := AllNodes(Parse(s).value);
      && (forall i :: 0 <= i < |all| ==>
            && all[i].endPosition.Some?
            && KeywordAt(s, all[i].beginPosition)
            && CharAt(s, all[i].endPosition.value, BraceEnd)
            && (all[i].innerQueryBegin.Some? ==>
                  && all[i].beginPosition < all[i].innerQueryBegin.value < all[i].endPosition.value
                  && all[i].innerQuery == Some(Trim(s[all[i].innerQueryBegin.value + 1 .. all[i].endPosition.value - 1]))))
      && (forall i, j :: 0 <= i < j < |all| ==> all[i].endPosition.value < all[j].beginPosition)
  {
    var ps := Parse(s).value;
    FinishedFacts(s, AllNodes(ps), ps.offset);
  }

  lemma {:induction false} FinishedFacts(s: string, all: seq<CombinedResultNode>, f: nat)
    requires FinishedNodesOk(s, all, f)
    ensures forall i :: 0 <= i < |all| ==>
      && all[i].endPosition.Some?
      && KeywordAt(s, all[i].beginPosition)
      && CharAt(s, all[i].endPosition.value, BraceEnd)
      && (all[i].innerQueryBegin.Some? ==>
            && all[i].beginPosition < all[i].innerQueryBegin.value < all[i].endPosition.value
            && all[i].innerQuery == Some(Trim(s[all[i].innerQueryBegin.value + 1 .. all[i].endPosition.value - 1])))
    ensures forall i, j :: 0 <= i < j < |all| ==> all[i].endPosition.value < all[j].beginPosition
  {
    forall i | 0 <= i < |all|
      ensures all[i].endPosition.Some? && KeywordAt(s, all[i].beginPosition)
      ensures CharAt(s, all[i].endPosition.value, BraceEnd)
      ensures all[i].innerQueryBegin.Some? ==>
            && all[i].beginPosition < all[i].innerQueryBegin.value < all[i].endPosition.value
            && all[i].innerQuery == Some(Trim(s[all[i].innerQueryBegin.value + 1 .. all[i].endPosition.value - 1]))
    {
      assert FinishedNodeOk(s, all[i]);
    }
    forall i, j | 0 <= i < j < |all|
      ensures all[i].endPosition.value < all[j].beginPosition
    {
      assert EndsBefore(all[i], all[j]);
    }
  }

  // ---------------------------------------------------------------------------
  // Finalisation

  /** The successes of `rs`, in order. */
  function OkVariants<T, E>(rs: seq<Result<T, E>>): (vs: seq<T>)
    ensures (forall i :: 0 <= i < |rs| ==> rs[i].Success?) ==>
      |vs| == |rs| && forall i :: 0 <= i < |rs| ==> vs[i] == rs[i].value
  {
    if |rs| == 0 then []
    else if rs[0].Success? then [rs[0].value] + OkVariants(rs[1..])
    else OkVariants(rs[1..])
  }

  /** The failures of `rs`, in order: none exactly when all succeed, and the first is that of the first failure. */
  function ErrorVariants<T, E(==)>(rs: seq<Result<T, E>>): (es: seq<E>)
    ensures |es| == 0 <==> forall i :: 0 <= i < |rs| ==> rs[i].Success?
    ensures |es| > 0 ==>
      exists k :: 0 <= k < |rs| && rs[k].Failure? && es[0] == rs[k].error
        && forall j :: 0 <= j < k ==> rs[j].Success?
  {
    if |rs| == 0 then []
    else if rs[0].Failure? then [rs[0].error] + ErrorVariants(rs[1..])
    else
      var es := ErrorVariants(rs[1..]);
      if |es| > 0 then
        var k :| 0 <= k < |rs[1..]| && rs[1..][k].Failure? && es[0] == rs[1..][k].error
          && forall j :: 0 <= j < k ==> rs[1..][j].Success?;
        assert rs[k + 1].Failure? && forall j :: 0 <= j < k + 1 ==> rs[j].Success?;
        es
      else es
  }

  /**
   * All finished directives converted to complete ones, in order, or the
   * `DirectiveIncomplete` error of the first one that is incomplete.
   */
  function GetCompleteNodes(nodes: seq<CombinedResultNode>)
    : (r: Result<seq<CompleteCombinedResultNode>, QueryCompilerError>)
    ensures r.Success? <==> forall i :: 0 <= i < |nodes| ==> IsComplete(nodes[i])
    ensures r.Success? ==> |r.value| == |nodes| && forall i :: 0 <= i < |nodes| ==> Partial(r.value[i]) == nodes[i]
    ensures r.Failure? ==>
      exists k :: 0 <= k < |nodes| && !IsComplete(nodes[k])
        && (forall j :: 0 <= j < k ==> IsComplete(nodes[j]))
        && r.error == DirectiveIncomplete(KeywordCombinedResult, nodes[k].beginPosition)
  {
    var converted := seq(|nodes|, i requires 0 <= i < |nodes| => TryFromNode(nodes[i]));
    var okVariants := OkVariants(converted);
    var errorVariants := ErrorVariants(converted);
    if |errorVariants| > 0 then
      var k :| 0 <= k < |converted| && converted[k].Failure? && errorVariants[0] == converted[k].error
        && forall j :: 0 <= j < k ==> converted[j].Success?;
      assert converted[k] == TryFromNode(nodes[k]);
      assert forall j :: 0 <= j < k ==> IsComplete(nodes[j]) by {
        forall j | 0 <= j < k
          ensures IsComplete(nodes[j])
        {
          assert converted[j] == TryFromNode(nodes[j]);
        }
      }
      Failure(errorVariants[0])
    else
      assert forall i :: 0 <= i < |nodes| ==> converted[i].Success?;
      assert forall i :: 0 <= i < |nodes| ==> Partial(okVariants[i]) == nodes[i] by {
        forall i | 0 <= i < |nodes|
          ensures Partial(okVariants[i]) == nodes[i]
        {
          assert okVariants[i] == converted[i].value;
        }
      }
      Success(okVariants)
  }

  /**
   * `finalize`: the statement with its finished directives made complete.
   * The open directive, if any, is neither returned nor reported.
   */
  function Finalize(ps: ParserState): (r: Result<FinalParserState, QueryCompilerError>)
    ensures r.Success? ==>
      && r.value.statement == ps.statement
      && |r.value.combinedResultNodes| == |AllNodes(ps)|
      && forall i :: 0 <= i < |AllNodes(ps)| ==> Partial(r.value.combinedResultNodes[i]) == AllNodes(ps)[i]
    ensures r.Failure? <==> exists k :: 0 <= k < |AllNodes(ps)| && !IsComplete(AllNodes(ps)[k])
    ensures r.Failure? ==>
      exists k :: 0 <= k < |AllNodes(ps)|
        && r.error == DirectiveIncomplete(KeywordCombinedResult, AllNodes(ps)[k].beginPosition)
  {
    var nodes :- GetCompleteNodes(AllNodes(ps));
    Success(FinalParserState(ps.statement, nodes))
  }
}
