/**
 * The MySQL 8.4 back end's driver (src/codegen/mysql84.rs) and the compiler
 * entry point that runs parser, finalisation and code generation in turn
 * (src/lib.rs). The code generated for one directive and the pretty-printer
 * are parameters: `gen` and `pretty`.
 */
module MySql84 {
  import opened Wrappers
  import opened Errors
  import opened Strings
  import opened Nodes
  import opened Parser

  datatype Ordering = Less | Equal | Greater

  /** Where one directive's scope lies in the input statement: its `{` and its `}`. */
  datatype CombinedResultNodeSlice = CombinedResultNodeSlice(scopeBegin: nat, scopeEnd: nat)

  datatype CompiledQueryDescriptor = CompiledQueryDescriptor(
    statement: string,
    combinedResultNodeSlices: seq<CombinedResultNodeSlice>)

  /**
   * How compilation ends early: an error the compiler reports, or the panic
   * of slicing the statement with `begin..end + 1` out of range.
   */
  datatype CompileError = Reported(error: QueryCompilerError) | SlicePanic(begin: nat, end: nat)

  type Node = CompleteCombinedResultNode

  // ---------------------------------------------------------------------------
  // Ordering

  /** `get_node_ordering_key`: the later-ending node sorts first; no two nodes compare equal. */
  function GetNodeOrderingKey(lhs: Node, rhs: Node): (o: Ordering)
    ensures o == Less <==> GetEndPosition(lhs) > GetEndPosition(rhs)
    ensures o != Equal
  {
    if GetEndPosition(lhs) > GetEndPosition(rhs) then Less else Greater
  }

  /**
   * On distinct end positions the key is a consistent order (swapping the
   * arguments swaps `Less` and `Greater`); on equal ends both orders say
   * `Greater`, so the key is no total order there.
   */
  lemma {:induction false} OrderingKeyConsistent(a: Node, b: Node)
    ensures a.endPosition != b.endPosition ==>
      (GetNodeOrderingKey(a, b) == Less <==> GetNodeOrderingKey(b, a) == Greater)
    ensures a.endPosition == b.endPosition ==>
      GetNodeOrderingKey(a, b) == Greater && GetNodeOrderingKey(b, a) == Greater
  {
  }

  predicate EndsDescending(ns: seq<Node>) {
    forall i, j :: 0 <= i < j < |ns| ==> ns[i].endPosition > ns[j].endPosition
  }

  predicate EndsAscending(ns: seq<Node>) {
    forall i, j :: 0 <= i < j < |ns| ==> ns[i].endPosition < ns[j].endPosition
  }

  predicate DistinctEnds(ns: seq<Node>) {
    forall i, j :: 0 <= i < j < |ns| ==> ns[i].endPosition != ns[j].endPosition
  }

  function InsertByKey(x: Node, sorted: seq<Node>): (r: seq<Node>)
    ensures multiset(r) == multiset(sorted) + multiset{x}
  {
    if |sorted| == 0 then [x]
    else if GetNodeOrderingKey(x, sorted[0]) == Less then [x] + sorted
    else
      assert sorted == [sorted[0]] + sorted[1..];
      [sorted[0]] + InsertByKey(x, sorted[1..])
  }

  /** `sort_by(get_node_ordering_key)`, as an insertion sort. */
  function SortByKey(nodes: seq<Node>): (r: seq<Node>)
    ensures multiset(r) == multiset(nodes)
  {
    if |nodes| == 0 then []
    else
      assert nodes == [nodes[0]] + nodes[1..];
      InsertByKey(nodes[0], SortByKey(nodes[1..]))
  }

  lemma {:induction false} InSeq(y: Node, s: seq<Node>) returns (j: nat)
    requires y in multiset(s)
    ensures j < |s| && s[j] == y
  {
    assert y in s;
    j :| 0 <= j < |s| && s[j] == y;
  }

  lemma {:induction false} InsertDescending(x: Node, s: seq<Node>)
    requires EndsDescending(s)
    requires forall k :: 0 <= k < |s| ==> s[k].endPosition != x.endPosition
    ensures EndsDescending(InsertByKey(x, s))
    decreases |s|
  {
    if |s| > 0 && GetNodeOrderingKey(x, s[0]) != Less {
      var t := InsertByKey(x, s[1..]);
      InsertDescending(x, s[1..]);
      forall k | 0 <= k < |t|
        ensures t[k].endPosition < s[0].endPosition
      {
        assert t[k] in multiset(t);
        if t[k] != x {
          var j := InSeq(t[k], s[1..]);
          assert s[1..][j] == s[j + 1];
        }
      }
      assert InsertByKey(x, s) == [s[0]] + t;
    }
  }

  /** With distinct end positions the sort is strictly decreasing in end position. */
  lemma {:induction false} SortDescending(nodes: seq<Node>)
    requires DistinctEnds(nodes)
    ensures EndsDescending(SortByKey(nodes))
    decreases |nodes|
  {
    if |nodes| > 0 {
      var t := SortByKey(nodes[1..]);
      SortDescending(nodes[1..]);
      forall k | 0 <= k < |t|
        ensures t[k].endPosition != nodes[0].endPosition
      {
        assert t[k] in multiset(t);
        var j := InSeq(t[k], nodes[1..]);
        assert nodes[1..][j] == nodes[j + 1];
      }
      InsertDescending(nodes[0], t);
    }
  }

  /**
   * Two strictly descending arrangements of the same nodes are equal: any
   * correct sort by the key, whatever its algorithm, gives the insertion
   * sort's result when the end positions are distinct.
   */
  lemma {:induction false} DescendingUnique(a: seq<Node>, b: seq<Node>)
    requires multiset(a) == multiset(b)
    requires EndsDescending(a) && EndsDescending(b)
    ensures a == b
    decreases |a|
  {
    assert |a| == |multiset(a)| == |b|;
    if |a| > 0 {
      DescendingSameHead(a, b);
      var a', b' := a[1..], b[1..];
      assert a == [a[0]] + a' && b == [b[0]] + b';
      assert multiset(a') == multiset(a) - multiset{a[0]};
      assert multiset(b') == multiset(b) - multiset{b[0]};
      DescendingTail(a);
      DescendingTail(b);
      DescendingUnique(a', b');
    }
  }

  /** Both arrangements start with the node of the greatest end position. */
  lemma {:induction false} DescendingSameHead(a: seq<Node>, b: seq<Node>)
    requires multiset(a) == multiset(b) && |a| > 0
    requires EndsDescending(a) && EndsDescending(b)
    ensures a[0] == b[0]
  {
    assert a[0] in multiset(b);
    var j := InSeq(a[0], b);
    assert b[0] in multiset(a);
    var i := InSeq(b[0], a);
    if j > 0 {
      assert b[0].endPosition > b[j].endPosition;
    }
  }

  lemma {:induction false} DescendingTail(a: seq<Node>)
    requires EndsDescending(a) && |a| > 0
    ensures EndsDescending(a[1..])
  {
    forall i, j | 0 <= i < j < |a| - 1
      ensures a[1..][i].endPosition > a[1..][j].endPosition
    {
      assert a[1..][i] == a[i + 1] && a[1..][j] == a[j + 1];
    }
  }

  function Reverse<T>(s: seq<T>): (r: seq<T>)
    ensures |r| == |s| && forall i :: 0 <= i < |s| ==> r[i] == s[|s| - 1 - i]
  {
    if |s| == 0 then [] else Reverse(s[1..]) + [s[0]]
  }

  lemma {:induction false} InsertLast(x: Node, s: seq<Node>)
    requires forall k :: 0 <= k < |s| ==> s[k].endPosition > x.endPosition
    ensures InsertByKey(x, s) == s + [x]
  {
    if |s| > 0 {
      InsertLast(x, s[1..]);
      assert s == [s[0]] + s[1..];
    }
  }

  /**
   * The parser delivers its directives in increasing end position, so the
   * sort reverses them: the last directive is replaced first.
   */
  lemma {:induction false} SortAscendingReverses(nodes: seq<Node>)
    requires EndsAscending(nodes)
    ensures SortByKey(nodes) == Reverse(nodes)
    decreases |nodes|
  {
    if |nodes| > 0 {
      var x, rest := nodes[0], nodes[1..];
      assert EndsAscending(rest) by {
        forall i, j | 0 <= i < j < |rest|
          ensures rest[i].endPosition < rest[j].endPosition
        {
          assert rest[i] == nodes[i + 1] && rest[j] == nodes[j + 1];
        }
      }
      SortAscendingReverses(rest);
      var t := Reverse(rest);
      forall k | 0 <= k < |t|
        ensures t[k].endPosition > x.endPosition
      {
        var m := |rest| - 1 - k;
        assert t[k] == rest[m];
        assert rest[m] == nodes[m + 1];
      }
      InsertLast(x, t);
    }
  }

  // ---------------------------------------------------------------------------
  // Splicing

  function Wrap(code: string): string {
    "(" + code + ")"
  }

  /**
   * `process_nodes_in_order`'s loop over the sorted nodes: each node's text
   * `statement[begin ..= end]`, read from the statement as it stands, has
   * every occurrence replaced by its generated code in parentheses. A
   * failing `gen` aborts the loop; an out-of-range slice panics.
   */
  function ProcessSorted(statement: string, nodes: seq<Node>, gen: Node -> Result<string, QueryCompilerError>)
    : (r: Result<string, CompileError>)
    ensures r.Success? ==> forall k :: 0 <= k < |nodes| ==> gen(nodes[k]).Success?
    ensures r.Failure? && r.error.Reported? ==>
      exists k :: 0 <= k < |nodes| && gen(nodes[k]) == Failure(r.error.error)
        && forall j :: 0 <= j < k ==> gen(nodes[j]).Success?
    decreases |nodes|
  {
    if |nodes| == 0 then Success(statement)
    else
      var node := nodes[0];
      var b, e := GetBeginPosition(node), GetEndPosition(node);
      if !(b <= e + 1 <= |statement|) then Failure(SlicePanic(b, e))
      else
        var original := statement[b .. e + 1];
        match gen(node)
        case Failure(err) => Failure(Reported(err))
        case Success(code) =>
          var r := ProcessSorted(ReplaceAll(statement, original, Wrap(code)), nodes[1..], gen);
          assert forall k :: 0 < k < |nodes| ==> nodes[k] == nodes[1..][k - 1];
          r
  }

  function GetAllNodes(state: FinalParserState): seq<Node> {
    state.combinedResultNodes
  }

  /** `process_nodes_in_order`: the statement with every node spliced, latest end first. */
  function ProcessNodesInOrder(state: FinalParserState, gen: Node -> Result<string, QueryCompilerError>)
    : (r: Result<FinalParserState, CompileError>)
    ensures r.Success? ==> r.value.combinedResultNodes == state.combinedResultNodes
    ensures r.Success? ==> forall k :: 0 <= k < |state.combinedResultNodes| ==> gen(state.combinedResultNodes[k]).Success?
  {
    var nodesInOrder := SortByKey(GetAllNodes(state));
    var statement :- ProcessSorted(state.statement, nodesInOrder, gen);
    forall k | 0 <= k < |state.combinedResultNodes|
      ensures gen(state.combinedResultNodes[k]).Success?
    {
      var j := InSeq(state.combinedResultNodes[k], nodesInOrder);
    }
    Success(state.(statement := statement))
  }

  /**
   * `generate_code`: the spliced statement pretty-printed, and one slice per
   * directive in scan order holding its `{` and `}` offsets, which are
   * offsets in the input statement, not in the output.
   */
  function GenerateCode(state: FinalParserState, gen: Node -> Result<string, QueryCompilerError>,
                        pretty: string -> Result<string, QueryCompilerError>)
    : (r: Result<CompiledQueryDescriptor, CompileError>)
    ensures r.Success? ==>
      && |r.value.combinedResultNodeSlices| == |state.combinedResultNodes|
      && forall i :: 0 <= i < |state.combinedResultNodes| ==>
           r.value.combinedResultNodeSlices[i] ==
             CombinedResultNodeSlice(state.combinedResultNodes[i].innerQueryBegin, state.combinedResultNodes[i].endPosition)
    ensures r.Success? <==>
      && ProcessNodesInOrder(state, gen).Success?
      && pretty(ProcessNodesInOrder(state, gen).value.statement).Success?
    ensures r.Success? ==> r.value.statement == pretty(ProcessNodesInOrder(state, gen).value.statement).value
  {
    var processed :- ProcessNodesInOrder(state, gen);
    var nodes := processed.combinedResultNodes;
    var slices := seq(|nodes|, i requires 0 <= i < |nodes| =>
      CombinedResultNodeSlice(GetScopeBeginPosition(nodes[i]), GetEndPosition(nodes[i])));
    match pretty(processed.statement)
    case Failure(e) => Failure(Reported(e))
    case Success(statement) => Success(CompiledQueryDescriptor(statement, slices))
  }

  /** `preprocess_mysql84_query`: parse, finalise, then generate code; the first error is returned. */
  function PreprocessQuery(statement: string, gen: Node -> Result<string, QueryCompilerError>,
                           pretty: string -> Result<string, QueryCompilerError>)
    : Result<CompiledQueryDescriptor, CompileError>
  {
    match Parse(statement)
    case Failure(e) => Failure(Reported(e))
    case Success(parser) =>
      match Finalize(parser)
      case Failure(e) => Failure(Reported(e))
      case Success(finalized) => GenerateCode(finalized, gen, pretty)
  }

  // ---------------------------------------------------------------------------
  // What the splice computes

  /** The spans `[begin, end]` of `ns` lie below `limit`, in order and disjoint. */
  predicate SpansIn(limit: nat, ns: seq<Node>)
    decreases |ns|
  {
    |ns| > 0 ==>
      var n := ns[|ns| - 1];
      && n.beginPosition <= n.endPosition < limit
      && SpansIn(n.beginPosition, ns[..|ns| - 1])
  }

  /**
   * The reference splice by position: each span replaced by its generated
   * code in parentheses and the text around the spans kept. Read from the
   * last span: the spliced text before it, its code, then the rest of `s`.
   */
  function Assemble(s: string, ns: seq<Node>, gen: Node -> Result<string, QueryCompilerError>): string
    requires SpansIn(|s|, ns)
    requires forall k :: 0 <= k < |ns| ==> gen(ns[k]).Success?
    decreases |ns|
  {
    if |ns| == 0 then s
    else
      var n := ns[|ns| - 1];
      assert forall k :: 0 <= k < |ns| - 1 ==> ns[..|ns| - 1][k] == ns[k];
      Assemble(s[..n.beginPosition], ns[..|ns| - 1], gen) + Wrap(gen(n).value) + s[n.endPosition + 1..]
  }

  /**
   * Replacing every occurrence of the spans' texts is the splice by position
   * when, at the moment each span is replaced (the last first), its text
   * occurs in the statement only at its own position.
   */
  ghost predicate SpliceUnique(s: string, ns: seq<Node>, gen: Node -> Result<string, QueryCompilerError>)
    decreases |ns|
  {
    |ns| > 0 ==>
      var n := ns[|ns| - 1];
      && n.beginPosition <= n.endPosition < |s|
      && gen(n).Success?
      && OccursOnlyAt(s, s[n.beginPosition .. n.endPosition + 1], n.beginPosition)
      && SpliceUnique(s[..n.beginPosition] + Wrap(gen(n).value) + s[n.endPosition + 1..], ns[..|ns| - 1], gen)
  }

  /**
   * One replacement of a span whose text occurs once is the splice by
   * position; in particular everything before the span is unchanged, so
   * the offsets of the directives before it stay valid.
   */
  lemma {:induction false} ReplaceUniqueSpan(s: string, b: nat, e: nat, rep: string)
    requires b <= e < |s|
    requires OccursOnlyAt(s, s[b .. e + 1], b)
    ensures ReplaceAll(s, s[b .. e + 1], rep) == s[..b] + rep + s[e + 1..]
    ensures ReplaceAll(s, s[b .. e + 1], rep)[..b] == s[..b]
  {
    ReplaceAllUnique(s, s[b .. e + 1], rep, b);
  }

  /** Only the last span's end is bounded by `limit`. */
  lemma {:induction false} SpansInWiden(limit: nat, limit': nat, ns: seq<Node>)
    requires SpansIn(limit, ns) && limit <= limit'
    ensures SpansIn(limit', ns)
  {
  }

  /**
   * Text after `L`, past every span, is carried through unchanged: splicing
   * `t` is splicing its first `L` characters followed by the rest.
   */
  lemma {:induction false} AssemblePrefix(t: string, L: nat, ns: seq<Node>, gen: Node -> Result<string, QueryCompilerError>)
    requires L <= |t| && SpansIn(L, ns)
    requires forall k :: 0 <= k < |ns| ==> gen(ns[k]).Success?
    ensures SpansIn(|t|, ns)
    ensures Assemble(t, ns, gen) == Assemble(t[..L], ns, gen) + t[L..]
  {
    SpansInWiden(L, |t|, ns);
    if |ns| > 0 {
      var n := ns[|ns| - 1];
      var head := Assemble(t[..n.beginPosition], ns[..|ns| - 1], gen) + Wrap(gen(n).value);
      CutAndRejoin(t, n.beginPosition, n.endPosition + 1, L);
      assert Assemble(t[..L], ns, gen) == head + t[n.endPosition + 1 .. L];
      AppendAssoc(head, t[n.endPosition + 1 .. L], t[L..]);
    } else {
      CutAndRejoin(t, 0, 0, L);
    }
  }

  /** Cutting `t` at `L` does not disturb the text before `b` or between `a` and `L`. */
  lemma {:induction false} CutAndRejoin(t: string, b: nat, a: nat, L: nat)
    requires b <= a <= L <= |t|
    ensures t[..L][..b] == t[..b]
    ensures t[..L][a..] == t[a .. L]
    ensures t[a..] == t[a .. L] + t[L..]
    ensures t == t[..L] + t[L..]
  {
  }

  /** The text spliced around `y` keeps `x` in front and `y + z` after it. */
  lemma {:induction false} SpliceParts<T>(x: seq<T>, y: seq<T>, z: seq<T>)
    ensures (x + y + z)[..|x|] == x
    ensures (x + y + z)[|x|..] == y + z
  {
  }

  lemma {:induction false} AppendAssoc<T>(a: seq<T>, b: seq<T>, c: seq<T>)
    ensures (a + b) + c == a + (b + c)
  {
  }

  lemma {:induction false} ReverseSnoc<T>(pre: seq<T>, n: T)
    ensures Reverse(pre + [n]) == [n] + Reverse(pre)
  {
    var a, b := Reverse(pre + [n]), [n] + Reverse(pre);
    assert |a| == |b|;
    forall i | 0 <= i < |a|
      ensures a[i] == b[i]
    {
      if i > 0 {
        assert b[i] == Reverse(pre)[i - 1] == pre[|pre| - i];
      }
    }
  }

  lemma {:induction false} SpliceUniqueGen(s: string, ns: seq<Node>, gen: Node -> Result<string, QueryCompilerError>)
    requires SpliceUnique(s, ns, gen)
    ensures forall k :: 0 <= k < |ns| ==> gen(ns[k]).Success?
    decreases |ns|
  {
    if |ns| > 0 {
      var n := ns[|ns| - 1];
      SpliceUniqueGen(s[..n.beginPosition] + Wrap(gen(n).value) + s[n.endPosition + 1..], ns[..|ns| - 1], gen);
      assert forall k :: 0 <= k < |ns| - 1 ==> ns[k] == ns[..|ns| - 1][k];
    }
  }

  /** One step of the loop: the first node's text is replaced everywhere by its code. */
  lemma {:induction false} ProcessStep(s: string, n: Node, rest: seq<Node>, gen: Node -> Result<string, QueryCompilerError>)
    requires n.beginPosition <= n.endPosition < |s| && gen(n).Success?
    ensures ProcessSorted(s, [n] + rest, gen)
      == ProcessSorted(ReplaceAll(s, s[n.beginPosition .. n.endPosition + 1], Wrap(gen(n).value)), rest, gen)
  {
    assert ([n] + rest)[0] == n && ([n] + rest)[1..] == rest;
  }

  /** The first step of the loop, for a span whose text occurs once. */
  lemma {:induction false} ProcessFirst(s: string, n: Node, rest: seq<Node>, gen: Node -> Result<string, QueryCompilerError>)
    requires n.beginPosition <= n.endPosition < |s| && gen(n).Success?
    requires OccursOnlyAt(s, s[n.beginPosition .. n.endPosition + 1], n.beginPosition)
    ensures ProcessSorted(s, [n] + rest, gen)
      == ProcessSorted(s[..n.beginPosition] + Wrap(gen(n).value) + s[n.endPosition + 1..], rest, gen)
  {
    var w := Wrap(gen(n).value);
    ProcessStep(s, n, rest, gen);
    ReplaceUniqueSpan(s, n.beginPosition, n.endPosition, w);
    var t := ReplaceAll(s, s[n.beginPosition .. n.endPosition + 1], w);
    assert t == s[..n.beginPosition] + w + s[n.endPosition + 1..];
  }

  /**
   * Processing directives in scan order from last to first, under the
   * uniqueness condition above, yields exactly the reference splice.
   */
  lemma {:induction false} ProcessSortedSplices(s: string, ns: seq<Node>, gen: Node -> Result<string, QueryCompilerError>)
    requires SpansIn(|s|, ns)
    requires SpliceUnique(s, ns, gen)
    ensures forall k :: 0 <= k < |ns| ==> gen(ns[k]).Success?
    ensures ProcessSorted(s, Reverse(ns), gen) == Success(Assemble(s, ns, gen))
    decreases |ns|
  {
    SpliceUniqueGen(s, ns, gen);
    if |ns| > 0 {
      var pre, n := ns[..|ns| - 1], ns[|ns| - 1];
      assert ns == pre + [n];
      ReverseSnoc(pre, n);
      var s1 := s[..n.beginPosition] + Wrap(gen(n).value) + s[n.endPosition + 1..];
      ProcessFirst(s, n, Reverse(pre), gen);
      assert ProcessSorted(s, Reverse(ns), gen) == ProcessSorted(s1, Reverse(pre), gen);
      AssembleAfterSplice(s, ns, gen);
      ProcessSortedSplices(s1, pre, gen);
    }
  }

  /** Code generation succeeds for every node of `ns`. */
  predicate AllGenerate(ns: seq<Node>, gen: Node -> Result<string, QueryCompilerError>) {
    forall k :: 0 <= k < |ns| ==> gen(ns[k]).Success?
  }

  /** Splicing the last span first leaves the splice of the others to do. */
  lemma {:induction false} AssembleAfterSplice(s: string, ns: seq<Node>, gen: Node -> Result<string, QueryCompilerError>)
    requires |ns| > 0 && SpansIn(|s|, ns)
    requires forall k :: 0 <= k < |ns| ==> gen(ns[k]).Success?
    ensures var n := ns[|ns| - 1];
      var s1 := s[..n.beginPosition] + Wrap(gen(n).value) + s[n.endPosition + 1..];
      && SpansIn(|s1|, ns[..|ns| - 1])
      && AllGenerate(ns[..|ns| - 1], gen)
      && Assemble(s1, ns[..|ns| - 1], gen) == Assemble(s, ns, gen)
  {
    var pre, n := ns[..|ns| - 1], ns[|ns| - 1];
    var w := Wrap(gen(n).value);
    var rest := s[n.endPosition + 1..];
    var s1 := s[..n.beginPosition] + w + rest;
    assert forall k :: 0 <= k < |pre| ==> pre[k] == ns[k];
    AssemblePrefix(s1, n.beginPosition, pre, gen);
    SpliceParts(s[..n.beginPosition], w, rest);
    var a := Assemble(s[..n.beginPosition], pre, gen);
    assert Assemble(s1, pre, gen) == a + (w + rest);
    AppendAssoc(a, w, rest);
  }
}
