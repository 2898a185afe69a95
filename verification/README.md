# sqlquerypp front end, modelled in Dafny

sqlquerypp is a SQL preprocessor. A statement may contain
`combined_result (<iteration query>) AS $<var> { <inner query> }`
directives. The Rust front end finds these directives, records their offsets
and text, and then splices generated MySQL 8.4 code over each one.

This project models that front end as pure functions over `string`
(`seq<char>`, ASCII) and proves properties about them.

- **Parser automaton** (`parser.dfy`, `scanner.dfy`, `lex.dfy`, `errors.dfy`):
  - An immutable `ParserState` is folded over the words of the statement, split on single spaces.
  - `offset` advances by the word's length plus one.
  - A word equal to `combined_result` opens a directive.
  - While a directive is open, words starting with `(`, `$`, `{` and `}` fill it in; the `}` word closes it.
  - `Valid(ps, frontier)` is the automaton's invariant. Every transition preserves it.
- **Node records** (`nodes.dfy`):
  - the partial record and the complete record
  - the `DirectiveIncomplete` conversion between them
  - query normalisation and the equality built on it
  - the `n`-prefixed column list of the recursive CTE
- **Whole-parse properties** (`parser_properties.dfy`):
  - the offset before each word
  - which words open and close directives: the directives begin at the `combined_result` words and end at the `}` words met while one is open
  - how errors stop the parse
  - statements without directives
  - the shape of what finalisation delivers
- **MySQL 8.4 driver** (`mysql84.dfy`):
  - the ordering key and the sort
  - the replace-all loop of `process_nodes_in_order`
  - `generate_code` with its slices
  - the compiler entry point of `src/lib.rs`

  The code generated for one directive (`gen`) and the SQL pretty-printer (`pretty`) are function parameters. Both may fail.
- **End to end** (`pipeline.dfy`):
  - For a statement that parses and finalises, and whose directive texts are unique when replaced, compilation is the pretty-printed splice by position (`Assemble`).
  - A statement without directives is only pretty-printed.
- **Rust standard library** (`strings.dfy`): `split` on one character, `join`, `trim`, `find` and `str::replace`, written as reference definitions with their laws.

Behaviour of the code that a reader might not expect:

- Every statement passes through `format_query_prettily`, including one without a directive, so the model returns `pretty(s)` and not `s` (`NoDirectivesOnlyPrettyPrints`).
- The slices of the returned descriptor hold the `{` and `}` offsets of the *input* statement. They are not offsets into the generated output.
- `get_all_nodes` is a plain copy of the finished nodes (`GetAllNodes`); `DeliveredNodes` states which directives those are.
- The `Node` accessors of src/parser/nodes/combined_result.rs:52-64 are the fields of the complete record:
  - `get_begin_position` is `beginPosition`, the keyword;
  - `get_scope_begin_position` is `innerQueryBegin`, the `{`;
  - `get_end_position` is `endPosition`, the `}`.

  `NodePositions` shows that on a parsed directive these are offsets of the keyword, a `{` and a `}`, in that order.
- The replacement loop cuts each directive from its keyword to its `}`. The returned slices run from its `{` to its `}`.
- Replacement uses `str::replace`, which replaces every occurrence. If two directives have identical text, the first replacement rewrites both. The second iteration then slices the already rewritten statement and rewrites a wrong span. `IdenticalSpansExample` shows this on `ab ab`: the loop yields `(X)) (X))`, while the splice by position yields `(X) (X)`. `PreprocessSplices` therefore assumes each directive's text is unique at the moment it is replaced (`SpliceUnique`).

## Model

| member | source | states |
|---|---|---|
| Scanner.FromKeyword | src/scanner.rs:13-22 | Yields a token exactly for the word `combined_result`; that token is `CombinedResultsKeyword` at the given offset. |
| Scanner.GetMandatorySucceedingCharacterPosition | src/scanner.rs:37-50 | Given `cursor <= end <= len`, the result is an absolute position `r`: `cursor <= r < end`, `statement[r]` is the character, and the character does not occur in `statement[cursor..r]`. It fails with `MissingCharacter(character, keyword)` exactly when the character does not occur in `statement[cursor..end]`. |
| Scanner.MandatoryPositionIsFind | src/scanner.rs:37-50 | The scan is `cursor` plus `str::find` on `statement[cursor..end]`, and `MissingCharacter(character, keyword)` when `find` gives None. |
| Strings.Find | src/scanner.rs:44-46 | `str::find`: None exactly when the character is absent; otherwise the index of its first occurrence. |
| Strings.Split | src/parser/state.rs:45 | `split(' ')` gives at least one piece, every piece is delimiter-free, and joining the pieces with the delimiter gives back the input (empty pieces included). |
| Strings.SplitJoin | src/parser/state.rs:45 | Splitting the join of delimiter-free words gives back those words, so split and join are inverse. |
| Strings.TrimSpec | src/parser/state.rs:287-292 | `trim` gives the slice of the input that starts after the leading white space and is followed only by white space. The result neither starts nor ends with white space, and it is empty only for all-white-space input. |
| Strings.ReplaceAllUnique | src/codegen/mysql84.rs:42-45 | When the pattern occurs only at `b`, replace-all equals the splice `s[..b] + rep + s[b + len..]`. |
| Strings.ReplaceAllAbsent | src/codegen/mysql84.rs:42-45 | `str::replace` with a non-empty pattern that occurs nowhere returns its input unchanged. |
| Nodes.NewNode | src/parser/nodes/combined_result.rs:87-96 | A new directive has the given begin position and every other field None. |
| Nodes.TryFromNode | src/parser/nodes/combined_result.rs:98-124 | Succeeds exactly when all five optional fields are present, and then carries exactly their values. Otherwise it fails with `DirectiveIncomplete("combined_result", begin_position)`. |
| Nodes.Partial | src/parser/nodes/combined_result.rs:98-124 | The partial view of a complete directive is complete, and the conversion maps it back to the same directive: `TryFromNode(Partial(c)) == Success(c)`. |
| Nodes.NewNodeIsIncomplete | src/parser/nodes/combined_result.rs:87-124 | A directive that was only opened never converts; it reports `DirectiveIncomplete` at its keyword. |
| Nodes.NormalizeQuery | src/parser/nodes/combined_result.rs:66-73 | The output has no line break, no space at either end and never two spaces in a row. |
| Nodes.WordsOfNormalized | src/parser/nodes/combined_result.rs:66-73 | Normalisation keeps the ordered sequence of non-empty words separated by space, `\n` or `\r`. |
| Nodes.NormalizeIdempotent | src/parser/nodes/combined_result.rs:66-73 | Normalising twice is normalising once. |
| Nodes.NormalizeEqualIff | src/parser/nodes/combined_result.rs:66-73 | Two queries normalise equal if and only if they have the same words in the same order. |
| Nodes.NodesEqual | src/parser/nodes/combined_result.rs:75-85 | Two complete directives are equal if and only if: their positions, iteration query and variable are identical, and their inner queries have the same words. |
| Nodes.ConstructRecursiveCteColumns | src/parser/nodes/combined_result.rs:280-289 | The result is one longer than the input. It starts with the unquoted identifier `n`, followed by the input identifiers in order, all without a data type. |
| Parser.Initialize | src/parser/state.rs:33-38 | The state before the first word: the statement, offset 0, no seen token, no directive finished or open; the invariant holds from offset 0. |
| Parser.HandleCombinedResultsKeyword | src/parser/state.rs:214-227 | Fails exactly when a directive is already open, with `UnsupportedNesting("combined_result", "combined_result")`. Otherwise it opens `NewNode(offset)`, keeps the finished directives, and preserves the invariant. |
| Parser.AttachIterationQuery | src/parser/state.rs:229-255 | With a directive open, records `statement[cursor..p]`, where `p` is the first `)` before the first `{` after `cursor`, so the query has no `)` and no `{`. If no such `p` exists it fails with `MissingCharacter`: for `{` when there is no `{` after the cursor, else for `)`. With no directive open it does nothing. |
| Parser.FindIterationQueryEnd | src/parser/state.rs:234-249 | Searches `{` from the cursor to the end, then `)` from the cursor to that `{`. The result is a `)` with no `)` or `{` before it from the cursor and a `{` after it. On failure no such position exists, and the error is `MissingCharacter` for `{` when none follows the cursor, else for `)`. |
| Parser.IterationQueryOutcome | src/parser/state.rs:229-255 | With a directive open, recording the iteration query succeeds exactly when such a `)` exists, and then the open directive's iteration query is the text from the cursor to it, nothing else changing. |
| Parser.AttachIterationQueryValid | src/parser/state.rs:229-255 | Recording the iteration query after a `(` word preserves the invariant. |
| Parser.AttachVariable | src/parser/state.rs:257-272 | With a directive open, records the trimmed first word from the cursor as its variable. For a `$` word this value starts with `$`. With no directive open it does nothing. |
| Parser.AttachVariableValid | src/parser/state.rs:257-272 | Recording the variable after a `$` word preserves the invariant. |
| Parser.MarkInnerQueryBegin | src/parser/state.rs:274-282 | Only the open directive's `inner_query_begin` changes; with no directive open nothing changes. |
| Parser.MarkInnerQueryBeginValid | src/parser/state.rs:274-282 | Recording a `{` word preserves the invariant: the `{` lies after the keyword. |
| Parser.CloseNode | src/parser/state.rs:284-300 | The closed directive ends at the `}` offset. Its inner query is `trim(statement[inner_query_begin + 1 .. offset - 1])` when a `{` was seen; no other field changes. An open directive that was well formed becomes a well-formed finished one. |
| Parser.FinalizeCombinedResultNode | src/parser/state.rs:284-300 | Appends the closed directive to the finished ones and leaves none open. The statement, offset and seen token are unchanged. With no directive open it does nothing. |
| Parser.FinalizeValid | src/parser/state.rs:284-300 | Closing at a `}` word preserves the invariant. The finished directives stay well formed, disjoint and in scan order. |
| Parser.HandleTransition | src/parser/state.rs:170-212 | Preserves the statement, offset, seen token and invariant. It fails only on the nested keyword (`UnsupportedNesting`) or on a `(` without its `)`/`{` (`MissingCharacter`). Its effect on the directives for each token is stated by `TransitionEffect`. |
| Parser.TransitionEffect | src/parser/state.rs:170-227 | For every token: the keyword opens `NewNode` at its offset, or fails with `UnsupportedNesting` when a directive is open; other tokens change nothing while none is open; while one is open, `(` records the iteration query or fails with the missing `{`/`)`, `$` records its trimmed word as the variable, `{` records its offset as the inner query's begin, `}` closes the directive at its offset and appends it. Nothing else in the directives changes. |
| Parser.HandleInsideDirective | src/parser/state.rs:183-205 | The `(`, `$`, `{`, `}` tokens of an open directive preserve the invariant, and only `(` can fail, with `MissingCharacter`. `InsideDirectiveEffect` states what each token records. |
| Parser.InsideDirectiveEffect | src/parser/state.rs:183-205 | While a directive is open, `(` records the text up to the iteration query's `)` (or fails with the missing `{`/`)`), `$` its trimmed word as the variable, `{` its offset as the inner query's begin, and `}` closes and appends the directive; only that field of the open directive changes. |
| Parser.HandleOpeningParenthese | src/parser/state.rs:183-187 | A `(` token of an open directive is `attach_iteration_query` from the character after it. It keeps the statement and offset, preserves the invariant, and fails only with `MissingCharacter`. |
| Parser.TryForwardToKeywordSeenState | src/parser/state.rs:118-132 | Yields the token `CombinedResultsKeyword(offset)` exactly for the keyword word; any other word yields none and leaves the state unchanged. It fails only on the keyword inside an open directive. `KeywordStepEffect` states its effect on the directives. |
| Parser.KeywordStepEffect | src/parser/state.rs:118-132 | The keyword word opens `NewNode(offset)` keeping the finished directives, or fails with `UnsupportedNesting` when one is open. |
| Parser.GetScannerStateByCharToken | src/parser/state.rs:154-168 | `{` maps to `OpeningBrace`, `}` to `ClosingBrace`, `(` to `OpeningParenthese` and `$` to `Variable`, each at the current offset; every other character maps to None. |
| Parser.TryForwardToInitiatorCharBasedState | src/parser/state.rs:134-152 | Yields the token of the word's first character, None for an empty word or another first character, and then leaves the state unchanged. It keeps the seen token and fails only on a `(` word inside an open directive. `InitiatorStepEffect` states its effect on the directives. |
| Parser.InitiatorStepEffect | src/parser/state.rs:134-152 | A word starting with `(`, `$`, `{` or `}` has the effect of that token at the word's offset. |
| Parser.AdvanceWord | src/parser/state.rs:97-112 | Preserves the invariant. The keyword fails exactly when a directive is open. With no directive open, any word but the keyword succeeds and leaves the directives untouched. `AdvanceWordEffect` states the effect of every word. |
| Parser.AdvanceWordEffect | src/parser/state.rs:97-112 | Each word has the effect of its token: the keyword's if it is `combined_result`, else that of its first character; a word with no token changes nothing. On success the token becomes the seen token, or the seen token is kept when there is none. |
| Parser.AdvanceOffsetValid | src/parser/state.rs:114-116 | Moving the offset past a word does not disturb the invariant. |
| Parser.LoopStep | src/parser/state.rs:45-49 | One iteration of the loop: `advance_word`, then on success `advance_offset`, so the result is `AdvanceOffset(AdvanceWord(ps, word).value, word)` and the offset has moved by the word's length plus one. A failure is `advance_word`'s. |
| Parser.ParseWordsUpTo | src/parser/state.rs:44-51 | After the first `i` words the offset is `WordStart(words, i)` and the invariant holds. The only errors are nested-keyword and missing-character. What the words record is `LoopRecords`. |
| Parser.ParseWord | src/parser/state.rs:44-51 | After word `k` the offset is the start of word `k + 1`, and the invariant holds. What the words record is `LoopRecords`. |
| Parser.WordAtIndex | src/parser/state.rs:45-49 | Word `k` of the split lies in the statement at `WordStart(words, k)`, as a whole space-delimited word. |
| Parser.Parse | src/parser/state.rs:44-51 | On success the offset is the statement length plus one and the invariant holds; it fails only with the two parse errors. `ParseRecords` states which directives it found. |
| Parser.ParsedNodesFacts | src/parser/state.rs:284-298 | Every finished directive has the keyword at its begin and a `}` at its end, with its `{` strictly between them. Its inner query is the trimmed text between the braces, and it ends before the next one begins. |
| Parser.OkVariants | src/parser/state.rs:80-83 | When every conversion succeeds, the successes are exactly the converted values, in order. |
| Parser.ErrorVariants | src/parser/state.rs:85-92 | There are no errors exactly when every conversion succeeds. The first error is that of the first failing conversion. |
| Parser.GetCompleteNodes | src/parser/state.rs:69-95 | Succeeds exactly when every finished directive is complete, returning them in order (each `Partial` of its output is the input). Otherwise it returns the `DirectiveIncomplete` error of the first incomplete one. |
| Parser.Finalize | src/parser/state.rs:61-67 | Keeps the statement and returns exactly the finished directives, made complete. It fails exactly when one of them is incomplete. The open directive is neither returned nor reported. |
| ParserProperties.SplitWordsFrom | src/parser/state.rs:45 | The space-split words lie in the statement from offset 0, and together with their delimiters they cover it plus one. |
| ParserProperties.FailureSticks | src/parser/state.rs:47 | Once the loop fails it stays failed with the same error; `?` ends the loop. |
| ParserProperties.LoopStopsAtFailure | src/parser/state.rs:47 | A failed loop state is carried unchanged through the next word. |
| ParserProperties.OffsetIsWordStart | src/parser/state.rs:114-116 | Before word `i` the offset is that word's start in the statement: each earlier word's length plus one, empty words included. |
| ParserProperties.SuccessPassesEveryWord | src/parser/state.rs:44-51 | A successful parse went through a successful state before every word. |
| ParserProperties.ParseStopsAtNestedKeyword | src/parser/state.rs:214-223 | If the keyword is seen while a directive is open, the whole parse fails with exactly `UnsupportedNesting("combined_result", "combined_result")`. |
| ParserProperties.LoopStepKeepsNodes | src/parser/state.rs:173-209 | With no directive open, a word other than the keyword succeeds and leaves the directives untouched. |
| ParserProperties.LoopWithoutKeyword | src/parser/state.rs:44-51 | Without a keyword word the loop always succeeds and never opens or finishes a directive. |
| ParserProperties.NoKeywordNoNodes | src/parser/state.rs:61-67 | A statement without the keyword parses, and finalising yields no directive and the statement unchanged. |
| ParserProperties.StepRecords | src/parser/state.rs:170-227 | For one word: the keyword adds a directive begin at its offset; a `}` word while a directive is open adds an end at its offset; afterwards a directive is open exactly when the word was the keyword, or one was open and the word is not a `}` word. |
| ParserProperties.LoopRecords | src/parser/state.rs:44-51 | After the first `i` words, when the loop has not failed: the directives begin at the keyword words in order (`KeywordStarts`); the finished ones end at the `}` words met while one was open (`ClosingStarts`); one is open exactly when a keyword came with no `}` word after it (`OpenAfter`). |
| ParserProperties.ParseRecords | src/parser/state.rs:44-51 | The same law for the whole statement, after a successful `parse`. |
| ParserProperties.KeywordOpensDirective | src/parser/state.rs:214-227 | If word `i` is `combined_result` and nothing is open before it, the state after it has the same finished directives and `NewNode(WordStart(words, i))` open. |
| ParserProperties.ClosingWordClosesDirective | src/parser/state.rs:284-300 | If word `i` starts with `}` and a directive is open before it, the state after it has none open, and the finished directives gain exactly the open one closed at `WordStart(words, i)`. |
| ParserProperties.FinishedIsComplete | src/parser/nodes/combined_result.rs:98-124 | A well-formed finished directive, once converted, is a well-formed complete directive. |
| ParserProperties.NodePositions | src/parser/nodes/combined_result.rs:52-64 | On a directive taken from the statement, `get_begin_position` is the keyword's offset, `get_scope_begin_position` a `{` and `get_end_position` a `}`, in that order. |
| ParserProperties.ParseFinalizeWellFormed | src/parser/state.rs:61-95 | After parse and finalise, the statement is the input. Every directive has keyword, `{` and `}` in order, with its inner query the trimmed text between the braces, a `)`/`{`-free iteration query and a `$` variable; the directives are disjoint and in scan order. |
| ParserProperties.FinalizedRecords | src/parser/state.rs:61-95 | After parse and finalise, directive `i` begins at the `i`-th keyword word and ends at the `i`-th closing `}` word. The open directive is dropped, so there are fewer directives than keyword words exactly when one was left open. |
| MySql84.GetNodeOrderingKey | src/codegen/mysql84.rs:22-31 | `Less` exactly when the left node ends later; never `Equal`. |
| MySql84.OrderingKeyConsistent | src/codegen/mysql84.rs:22-31 | On distinct ends, swapping the arguments swaps `Less` and `Greater`. On equal ends both orders give `Greater`. |
| MySql84.SortByKey | src/codegen/mysql84.rs:36 | The sort is a permutation of its input. |
| MySql84.InsertByKey | src/codegen/mysql84.rs:36 | Insertion adds exactly the one node. |
| MySql84.SortDescending | src/codegen/mysql84.rs:36 | With distinct end positions, the sorted order is strictly decreasing in end position. |
| MySql84.DescendingUnique | src/codegen/mysql84.rs:36 | Two strictly descending permutations of the same nodes are equal. So any correct sort by this key agrees with the model's sort. |
| MySql84.SortAscendingReverses | src/codegen/mysql84.rs:36 | Nodes in scan order (ascending end) are sorted into exactly their reverse. |
| MySql84.ProcessSorted | src/codegen/mysql84.rs:37-46 | On success every node's code was generated. A reported error is the `generate_code` error of some node, and every node before it succeeded: the first error aborts. |
| MySql84.ReplaceUniqueSpan | src/codegen/mysql84.rs:42-45 | When the span's text occurs only at its position, the replacement is the splice by position, and `statement[..begin]` is unchanged. |
| MySql84.ProcessFirst | src/codegen/mysql84.rs:37-46 | For a unique span, the first iteration is the splice by position. |
| MySql84.ProcessSortedSplices | src/codegen/mysql84.rs:33-49 | Processing disjoint spans from last to first, each unique when replaced, gives exactly the reference splice `Assemble`. |
| MySql84.ProcessNodesInOrder | src/codegen/mysql84.rs:33-49 | On success the nodes are kept and every node's code was generated. |
| MySql84.GenerateCode | src/codegen/mysql84.rs:59-82 | Succeeds exactly when processing and pretty-printing succeed. The statement is the pretty-printed processed text. There is one slice per node, in parse order, holding its `inner_query_begin` and `end_position`. |
| MySql84Pipeline.CompleteNodesAscending | src/parser/state.rs:294-298 | The directives handed to code generation are in strictly increasing end position. |
| MySql84Pipeline.DeliveredNodes | src/codegen/mysql84.rs:51-57 | `get_all_nodes` hands code generation the directives of the statement: complete, in increasing end position, directive `i` beginning at the `i`-th keyword word and ending at the `i`-th closing `}` word. |
| MySql84Pipeline.PreprocessStages | src/lib.rs:23-42 | Compilation returns the parse error when parsing fails and the finalisation error when finalising fails. On success, slice `i` holds offsets of a `{` and of the `}` after it in the input, that `}` being the `i`-th closing `}` word; the slices follow each other. |
| MySql84Pipeline.NoDirectivesOnlyPrettyPrints | src/codegen/mysql84.rs:74-78 | Without a keyword word, compilation is `pretty(s)` with no slices; a pretty-printer failure is reported. |
| MySql84Pipeline.PreprocessSplices | src/lib.rs:23-42 | When parse and finalise succeed and each directive's text is unique when replaced, compilation yields `pretty(Assemble(s, nodes))`, with one `(inner_query_begin, end_position)` slice per directive. A pretty-printer failure is reported. |
| MySql84Pipeline.IdenticalSpansExample | src/codegen/mysql84.rs:39-45 | Two identical spans `ab ab` with code `X` give `(X)) (X))` through replace-all, whereas the splice by position gives `(X) (X)`. |

## Left out

- Per-directive code generation (the sqlparser-based CTE and join rewriting in src/parser/nodes/combined_result.rs:132-278, 369-415, 451-547 and 628-632). It is the parameter `gen`, because the external SQL library cannot be modelled. `InnerQueryInvalid` arises only there.
- `format_query_prettily` (src/codegen/common.rs:12-26) is the parameter `pretty`, for the same reason. `ResultingQueryInvalid` arises only there, as the error `pretty` may return.
- `get_iteration_target_identifier` (src/parser/nodes/combined_result.rs:575-601) is part of code generation. At line 597 it recurses on the same expression, so it is not a terminating function.
- The Python bindings are left out as foreign-function glue: the pyo3 module and macro wiring in src/lib.rs, `From<QueryCompilerError> for PyErr`, and the pyclass descriptors in src/types.rs.
  - `CombinedResultNodeSlice` follows the fields constructed in src/codegen/mysql84.rs:68-71 (`scope_begin`, `scope_end`). src/types.rs declares `begin` and `end` instead.
- The Python tests and parameter realignment are done by a Python layer that is not part of this model.
- Byte offsets versus characters: the statement is ASCII text. `trim` strips ' ' and '\t'..'\r', and char-boundary panics of Rust slicing cannot arise.
- `usize` overflow of offsets is not modelled (offsets are unbounded `nat`).
- `seen_token_state` is recorded as in the source but never read.
- MySql84.SortByKey: with equal end positions the Rust comparator is not a total order, and `sort_by`'s result is unspecified. The model's insertion sort fixes one order there. The parser never produces equal end positions (`ParsedNodesFacts`), and `DescendingUnique` shows the order is forced whenever they are distinct.
- Panics: an out-of-range slice in the replacement loop is the outcome `SlicePanic`. The other slices the source takes, in the parser, are proved in range from the invariant; where a helper would panic on bad input, its `requires` states the range.
- MySql84.GenerateCode and MySql84.ProcessNodesInOrder: the failure result is not related to a specific node's error at this level; `ProcessSorted` states that relation.
- The concrete offsets of the Rust unit tests in src/parser/mod.rs (57/111/371 and 415/469/727) are not replayed as lemmas. `OffsetIsWordStart` and `ParsedNodesFacts` state the general law they instance.
