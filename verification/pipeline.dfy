/**
 * What the whole compiler (src/lib.rs: parse, finalise, generate code)
 * does, stated end to end.
 */
module MySql84Pipeline {
  import opened Wrappers
  import opened Lex
  import opened Errors
  import opened Strings
  import opened Nodes
  import opened Parser
  import opened ParserProperties
  import opened MySql84

  lemma {:induction false} CompleteNodesSpans(s: string, limit: nat, nodes: seq<Node>)
    requires CompleteNodesOf(s, nodes)
    requires forall k :: 0 <= k < |nodes| ==> nodes[k].endPosition < limit
    ensures SpansIn(limit, nodes)
    decreases |nodes|
  {
    if |nodes| > 0 {
      var pre, n := nodes[..|nodes| - 1], nodes[|nodes| - 1];
      assert CompleteNodeOk(s, n);
      assert CompleteNodesOf(s, pre) by {
        forall i | 0 <= i < |pre|
          ensures CompleteNodeOk(s, pre[i])
        {
          assert pre[i] == nodes[i];
        }
      }
      forall k | 0 <= k < |pre|
        ensures pre[k].endPosition < n.beginPosition
      {
        assert pre[k] == nodes[k];
      }
      CompleteNodesSpans(s, n.beginPosition, pre);
    }
  }

  lemma {:induction false} CompleteNodesAscending(s: string, nodes: seq<Node>)
    requires CompleteNodesOf(s, nodes)
    ensures EndsAscending(nodes)
  {
    forall i, j | 0 <= i < j < |nodes|
      ensures nodes[i].endPosition < nodes[j].endPosition
    {
      assert CompleteNodeOk(s, nodes[j]);
    }
  }

  /**
   * A statement with no `combined_result` word compiles to its pretty-printed
   * self with no slices: the statement is not returned verbatim.
   */
  lemma {:induction false} NoDirectivesOnlyPrettyPrints(s: string, gen: Node -> Result<string, QueryCompilerError>,
                                     pretty: string -> Result<string, QueryCompilerError>)
    requires forall i :: 0 <= i < |Split(s, WordDelimiter)| ==> Split(s, WordDelimiter)[i] != KeywordCombinedResult
    ensures pretty(s).Failure? ==> PreprocessQuery(s, gen, pretty) == Failure(Reported(pretty(s).error))
    ensures pretty(s).Success? ==> PreprocessQuery(s, gen, pretty) == Success(CompiledQueryDescriptor(pretty(s).value, []))
  {
    NoKeywordNoNodes(s);
    var fs := FinalParserState(s, []);
    assert SortByKey(GetAllNodes(fs)) == [];
    assert ProcessNodesInOrder(fs, gen) == Success(fs);
  }

  /**
   * For a statement that parses and finalises, and whose directives' texts
   * are each unique when replaced, compilation is the pretty-printed
   * left-to-right splice of the generated code into the statement, with one
   * slice per directive locating its braces in the input.
   */
  lemma {:induction false} PreprocessSplices(s: string, gen: Node -> Result<string, QueryCompilerError>,
                          pretty: string -> Result<string, QueryCompilerError>)
    requires Parse(s).Success? && Finalize(Parse(s).value).Success?
    requires SpliceUnique(s, Finalize(Parse(s).value).value.combinedResultNodes, gen)
    ensures var nodes := Finalize(Parse(s).value).value.combinedResultNodes;
      && SpansIn(|s|, nodes)
      && (forall k :: 0 <= k < |nodes| ==> gen(nodes[k]).Success?)
      && var spliced := Assemble(s, nodes, gen);
         && (pretty(spliced).Failure? ==> PreprocessQuery(s, gen, pretty) == Failure(Reported(pretty(spliced).error)))
         && (pretty(spliced).Success? ==>
               && PreprocessQuery(s, gen, pretty).Success?
               && PreprocessQuery(s, gen, pretty).value.statement == pretty(spliced).value
               && |PreprocessQuery(s, gen, pretty).value.combinedResultNodeSlices| == |nodes|
               && forall i :: 0 <= i < |nodes| ==>
                    PreprocessQuery(s, gen, pretty).value.combinedResultNodeSlices[i]
                      == CombinedResultNodeSlice(nodes[i].innerQueryBegin, nodes[i].endPosition))
  {
    var fs := Finalize(Parse(s).value).value;
    var nodes := fs.combinedResultNodes;
    ParseFinalizeWellFormed(s);
    forall k | 0 <= k < |nodes|
      ensures nodes[k].endPosition < |s|
    {
      assert CompleteNodeOk(s, nodes[k]);
    }
    CompleteNodesSpans(s, |s|, nodes);
    CompleteNodesAscending(s, nodes);
    SortAscendingReverses(nodes);
    ProcessSortedSplices(s, nodes, gen);
    assert ProcessNodesInOrder(fs, gen) == Success(fs.(statement := Assemble(s, nodes, gen)));
  }

  /**
   * The nodes code generation works on are the directives of the statement
   * in scan order: complete, ending in increasing order, and beginning and
   * ending at the keyword and `}` words that opened and closed them.
   */
  lemma {:induction false} DeliveredNodes(s: string)
    requires Parse(s).Success? && Finalize(Parse(s).value).Success?
    ensures var words := Split(s, WordDelimiter);
      var nodes := GetAllNodes(Finalize(Parse(s).value).value);
      && CompleteNodesOf(s, nodes)
      && EndsAscending(nodes)
      && |nodes| == |ClosingStarts(words, |words|)| <= |KeywordStarts(words, |words|)|
      && forall i :: 0 <= i < |nodes| ==>
           && nodes[i].beginPosition == KeywordStarts(words, |words|)[i]
           && nodes[i].endPosition == ClosingStarts(words, |words|)[i]
  {
    ParseFinalizeWellFormed(s);
    FinalizedRecords(s);
    CompleteNodesAscending(s, Finalize(Parse(s).value).value.combinedResultNodes);
  }

  /**
   * Compilation stops at the first stage that fails, with that stage's
   * error. When it succeeds, slice `i` holds the offsets, in the input
   * statement, of the `{` and `}` of directive `i`: its end is the `i`-th
   * `}` word that closed a directive, and the slices follow each other.
   */
  lemma {:induction false} PreprocessStages(s: string, gen: Node -> Result<string, QueryCompilerError>,
                                            pretty: string -> Result<string, QueryCompilerError>)
    ensures Parse(s).Failure? ==> PreprocessQuery(s, gen, pretty) == Failure(Reported(Parse(s).error))
    ensures Parse(s).Success? && Finalize(Parse(s).value).Failure? ==>
      PreprocessQuery(s, gen, pretty) == Failure(Reported(Finalize(Parse(s).value).error))
    ensures PreprocessQuery(s, gen, pretty).Success? ==>
      && Parse(s).Success? && Finalize(Parse(s).value).Success?
      && var words := Split(s, WordDelimiter);
         var slices := PreprocessQuery(s, gen, pretty).value.combinedResultNodeSlices;
         && |slices| == |ClosingStarts(words, |words|)|
         && (forall i :: 0 <= i < |slices| ==>
               && CharAt(s, slices[i].scopeBegin, BraceStart)
               && CharAt(s, slices[i].scopeEnd, BraceEnd)
               && slices[i].scopeBegin < slices[i].scopeEnd
               && slices[i].scopeEnd == ClosingStarts(words, |words|)[i])
         && (forall i, j :: 0 <= i < j < |slices| ==> slices[i].scopeEnd < slices[j].scopeBegin)
  {
    var r := PreprocessQuery(s, gen, pretty);
    if r.Success? {
      var nodes := Finalize(Parse(s).value).value.combinedResultNodes;
      var slices := r.value.combinedResultNodeSlices;
      DeliveredNodes(s);
      forall i | 0 <= i < |slices|
        ensures CharAt(s, slices[i].scopeBegin, BraceStart) && CharAt(s, slices[i].scopeEnd, BraceEnd)
        ensures slices[i].scopeBegin < slices[i].scopeEnd
      {
        assert CompleteNodeOk(s, nodes[i]);
      }
      forall i, j | 0 <= i < j < |slices|
        ensures slices[i].scopeEnd < slices[j].scopeBegin
      {
        assert CompleteNodeOk(s, nodes[j]);
      }
    }
  }

  lemma {:induction false} ReplaceCopiesFirst()
    ensures ReplaceAll("ab ab", "ab", "(X)") == "(X) (X)"
  {
    assert ReplaceAll("ab", "ab", "(X)") == "(X)";
    assert ReplaceAll(" ab", "ab", "(X)") == " (X)";
    assert ReplaceAll("b ab", "ab", "(X)") == "b (X)";
  }

  lemma {:induction false} ReplaceCopiesSecond()
    ensures ReplaceAll("(X) (X)", "(X", "(X)") == "(X)) (X))"
  {
    assert ReplaceAll(")", "(X", "(X)") == ")";
    assert ReplaceAll("(X)", "(X", "(X)") == "(X))";
    assert ReplaceAll(" (X)", "(X", "(X)") == " (X))";
    assert ReplaceAll(") (X)", "(X", "(X)") == ") (X))";
  }

  lemma {:induction false} AssembleExample(gen: Node -> Result<string, QueryCompilerError>)
    requires forall n :: gen(n) == Success("X")
    ensures var n1 := CompleteCombinedResultNode(0, 1, "", "$v", 0, "");
            var n2 := CompleteCombinedResultNode(3, 4, "", "$v", 3, "");
      && SpansIn(5, [n1, n2])
      && Assemble("ab ab", [n1, n2], gen) == "(X) (X)"
  {
    var n1 := CompleteCombinedResultNode(0, 1, "", "$v", 0, "");
    var n2 := CompleteCombinedResultNode(3, 4, "", "$v", 3, "");
    var s := "ab ab";
    assert [n1, n2][..1] == [n1] && [n1][..0] == [];
    assert SpansIn(5, [n1, n2]);
    assert Wrap(gen(n1).value) == "(X)" && Wrap(gen(n2).value) == "(X)";
    assert s[..3] == "ab " && s[5..] == "" && "ab "[..0] == "" && "ab "[2..] == " ";
    assert Assemble("", [], gen) == "";
    assert Assemble("ab ", [n1], gen) == "" + "(X)" + " ";
    assert Assemble(s, [n1, n2], gen) == "(X) " + "(X)" + "";
  }

  lemma {:induction false} ProcessExampleSecond(gen: Node -> Result<string, QueryCompilerError>)
    requires forall n :: gen(n) == Success("X")
    ensures ProcessSorted("(X) (X)", [CompleteCombinedResultNode(0, 1, "", "$v", 0, "")], gen) == Success("(X)) (X))")
  {
    var n1 := CompleteCombinedResultNode(0, 1, "", "$v", 0, "");
    var s1 := "(X) (X)";
    assert Wrap(gen(n1).value) == "(X)";
    assert s1[0..2] == "(X" by {
      assert s1[0] == '(' && s1[1] == 'X';
    }
    ProcessStep(s1, n1, [], gen);
    ReplaceCopiesSecond();
    assert [n1] + [] == [n1];
  }

  lemma {:induction false} ProcessExample(gen: Node -> Result<string, QueryCompilerError>)
    requires forall n :: gen(n) == Success("X")
    ensures var n1 := CompleteCombinedResultNode(0, 1, "", "$v", 0, "");
            var n2 := CompleteCombinedResultNode(3, 4, "", "$v", 3, "");
      ProcessSorted("ab ab", [n2, n1], gen) == Success("(X)) (X))")
  {
    var n1 := CompleteCombinedResultNode(0, 1, "", "$v", 0, "");
    var n2 := CompleteCombinedResultNode(3, 4, "", "$v", 3, "");
    var s := "ab ab";
    assert Wrap(gen(n2).value) == "(X)";
    assert s[3..5] == "ab" by {
      assert s[3] == 'a' && s[4] == 'b';
    }
    ProcessStep(s, n2, [n1], gen);
    ReplaceCopiesFirst();
    assert [n2] + [n1] == [n2, n1];
    ProcessExampleSecond(gen);
  }

  /**
   * Replace-all also rewrites copies of a directive's text elsewhere: with
   * two identical spans `ab` in `ab ab` and code `X` for both, the first
   * replacement rewrites both copies, and the second then reads `(X` at its
   * offset and rewrites that, leaving unbalanced parentheses where the
   * splice by position gives `(X) (X)`.
   */
  lemma {:induction false} IdenticalSpansExample(gen: Node -> Result<string, QueryCompilerError>)
    requires forall n :: gen(n) == Success("X")
    ensures var n1 := CompleteCombinedResultNode(0, 1, "", "$v", 0, "");
            var n2 := CompleteCombinedResultNode(3, 4, "", "$v", 3, "");
      && SpansIn(5, [n1, n2])
      && Assemble("ab ab", [n1, n2], gen) == "(X) (X)"
      && ProcessSorted("ab ab", Reverse([n1, n2]), gen) == Success("(X)) (X))")
  {
    var n1 := CompleteCombinedResultNode(0, 1, "", "$v", 0, "");
    var n2 := CompleteCombinedResultNode(3, 4, "", "$v", 3, "");
    AssembleExample(gen);
    ProcessExample(gen);
    assert Reverse([n1, n2]) == [n2, n1];
  }
}
