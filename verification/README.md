# What the repository's gates and mints guarantee

This project models the decision logic of the brain-v42 maintenance scripts in
Dafny and proves what it decides. `dafny verify dfyconfig.toml` checks all of it.

**Module layering** (`Graphs`, `Orders`, `CycleSearch`, `ModuleLayering`,
`ModuleGraph`). The gate runs Tarjan's algorithm without recursion, over an
explicit stack of nodes and pending neighbours. `Graphs` defines reachability,
strongly connected components and cycles with no algorithm in sight.
`CycleSearch` states the invariant of the search and proves, for each kind of
step, that it survives. `ModuleLayering.CycleFinder` is the search as the script
writes it, field by field, and `FindCycles` meets a description of its result
that has only one solution. `ModuleGraph` says which edges stand by paths and
dotted names alone.

**The container-image gate.** Reachable returns (`ReturnReachability`) are
judged against a big-step semantics of the statements (`ReturnSemantics`;
`ReturnOutcomes` computes how a body can end and what it can execute;
`ReturnLists`). The substitution matcher and collector (`CommandSubstitution`)
and the pass that blanks quoted data (`ActiveCode`) are judged against a grammar
of shell text and its printer (`ShellWords`; sections 2.2 and 2.6.3 of the
POSIX.1-2017 Shell Command Language). The `env -S` splitter and the `env` parser
that splices into its own input (`EnvSplit`, `EnvCommand`; "env invocation" in
the GNU Coreutils manual) feed the resolver that peels command wrappers
(`WrapperResolution`). All three are judged against grammars of what they read,
with the arity of every option in the grammar (`EnvSplitGrammar`, `EnvGrammar`,
`WrapperGrammar`). Shell constants and namerefs (`Namerefs`, `ShellConstants`)
are judged against runs of the script (`ShellRuns`), and `ShellStages` decides
from the script alone which constants are right; `ShellLiterals` says when one
is given. Wrapper specs form a monoid whose merge is the least of what both say
(`WrapperSpecs`, `WrapperOrder`), and the worklist that refreshes them reaches a
stable state that says no more than it has to (`WrapperRefresh`). The catalogue
and the final check (`ImageReferences`, `ImageCatalog`, `ImageEntries`,
`ImageGate`, `ImageFindings`) come down to one sentence: every finding is made
exactly when what it says is the case, and there is none exactly when repository
and catalogue agree, character for character.

**Recovery contracts.** `RecoveryDelta` classifies the measured difference.
`RecoveryText` edits the lines in place (`RecoveryLines` says which), and
`RecoveryBlocks` says what the edits do to the rows of a well-formed block.
`RecoveryMint` puts them together for one block, and `RecoveryContract` for a
contract of several: what is written describes the database exactly.
`ContractText` is the v22 replacement script and its inverse, and
`ContractInverse` says when a replacement can be undone.

**Watchdog** (`Watchdog`). One cycle over the persistent counter, with every
command and file operation allowed to fail, and safety over all sequences of
cycles.

**Similarity** (`Similarity`). Cosine and Pearson bounds over the reals.

## Where the code falls short of its intent

These follow the code; each is proved, with the exact condition or a witness.

- A relative import that climbs past the package is refused only for a climb of
  exactly the package depth or of at least twice it. In between the negative
  slice bound wraps to a non-empty base (`EscapeRefusedExactly`, `EscapeMissed`).
- Code after a `with` that swallows exceptions is dropped exactly when the body is
  taken never to fall through and can raise (`SwallowingWithExact`,
  `SwallowedReturnMissed`). A display whose elements are all starred is taken to
  be true (`UnfixedTestExact`). A return that a `finally` overrides is listed
  (`OverriddenReturnListed`). `SoundIff` and `TightIff` decide both for any body.
- Inside double quotes `$((` opens two levels that its `))` never closes, so the
  end of the enclosing substitution is not found where it stands, and not at all
  when nothing follows (`SubstitutionEndFoundExactly`).
- `_active_shell_code` counts double quotes without knowing that a substitution
  starts a quoting level of its own, so an apostrophe or a comment sign inside
  nested double quotes can be misread and commands be lost (`NestedQuotesMissed`);
  `ActiveCodeExact` says exactly when the pass misreads.
- An option of `sudo` that takes a value is not seen behind a flag in the same
  word, so its value is taken for the command (`SudoClusterMisread`).
- The split round trip fails exactly for tokens with one of the three private-use
  marker characters (`SplitRoundTrip`).
- A literal assigned through an alias before the alias is declared is still
  attributed to the target (`ConstantExact`, `EarlyAliasMisjudged`), and a nameref
  is given its target's name as its text (`NamerefUseMisjudged`,
  `UnwrittenTargetMisjudged`). `ConstantHoldsIff` says for any constant whether it
  is right.
- A healthy probe or a recovery that cannot clear a positive counter is forgotten,
  and nothing else is (`BoundedNextIff`, `UnclearedHealthyProbe`).

The v22 inverse is no such case. Its premises hold for the script of a restored
database (`RestoredRoundTrip`), and the witnesses against dropping them in general
use edits that are none of the script's (`OverlappingResultNotUndone`,
`TouchedResultNotUndone`).

## Model

| member | source | states |
|---|---|---|
| Graphs.SccsEqualOrDisjoint | scripts/check_module_layering.py:106-156 | two strongly connected components that share a node are the same set |
| Graphs.AcyclicIffNoMutualPair | scripts/check_module_layering.py:99-164 | a graph without its self-edges has no cycle exactly when no two distinct nodes reach each other |
| Orders.SortedListingUnique | scripts/check_module_layering.py:156 | a set has one increasing listing under a strict total order, so sorting is a function of the set |
| Orders.Sorted | scripts/check_module_layering.py:141-156 | the result lists exactly the names, in strictly increasing order |
| Orders.SortComponentsSorts | scripts/check_module_layering.py:156 | sorting components by their sorted members keeps the components and puts them in strictly increasing order |
| CycleSearch.DiscoverKeeps | scripts/check_module_layering.py:128-133 | numbering and stacking a new node keeps the whole search invariant: what open nodes reach, what `low` witnesses and bounds, what is already emitted |
| CycleSearch.LookKeeps | scripts/check_module_layering.py:126-136 | taking an edge to a known node off a pending list, lowering `low` only when that node is stacked, keeps the invariant |
| CycleSearch.NonRootReachesLower | scripts/check_module_layering.py:138-142 | a node whose `low` is below its number reaches an open node below itself |
| CycleSearch.CloseKeeps | scripts/check_module_layering.py:138-141 | leaving a node that is no root, passing its `low` to the parent, keeps the invariant |
| CycleSearch.RootIsScc | scripts/check_module_layering.py:142-149 | when `low` equals the number, the part of the stack from the node up is a strongly connected component |
| CycleSearch.EmitComponent | scripts/check_module_layering.py:142-151 | emitting it keeps the emitted sets disjoint components, complete for the finished nodes, and in reverse topological order |
| CycleSearch.CloseRootKeeps | scripts/check_module_layering.py:138-151 | popping the component keeps the invariant |
| ModuleLayering.StackSuffix | scripts/check_module_layering.py:143-149 | on a stack in discovery order, the suffix from a node is exactly the stacked nodes numbered at least as high |
| ModuleLayering.CycleFinder.PopComponent | scripts/check_module_layering.py:143-149 | popping until the node itself appears removes from `stack` and `on_stack` exactly that suffix, and returns it |
| ModuleLayering.CycleFinder.Enter | scripts/check_module_layering.py:119-122 | number, `low`, counter, stack and `on_stack` all record the new node, nothing else changes |
| ModuleLayering.CycleFinder.TakeNeighbour | scripts/check_module_layering.py:126-136 | one neighbour leaves the top pending list; new, it is entered and pushed; stacked, it lowers `low`; the new state is the corresponding abstract step |
| ModuleLayering.CycleFinder.Examine | scripts/check_module_layering.py:126-136 | the step keeps the search valid and counts one more seen edge |
| ModuleLayering.CycleFinder.Emit | scripts/check_module_layering.py:142-151 | the component of a root leaves the stack and is reported if it has several members |
| ModuleLayering.CycleFinder.CloseTop | scripts/check_module_layering.py:138-151 | the top frame is popped, its `low` passed to the frame below, and its component emitted if it is a root: the corresponding abstract step |
| ModuleLayering.CycleFinder.Leave | scripts/check_module_layering.py:138-151 | popping a finished frame keeps the search valid and discovers nothing |
| ModuleLayering.CycleFinder.Visit | scripts/check_module_layering.py:115-151 | the search from one root ends with empty work, having discovered the root and lost nothing |
| ModuleLayering.ReportFromSearch | scripts/check_module_layering.py:106-156 | a finished search with every key discovered yields the report, all components, and one push per node and one pop per edge |
| ModuleLayering.FindCycles | scripts/check_module_layering.py:106-156 | the result is exactly the strongly connected components with more than one member, each once, ordered by sorted members; every component was emitted; nodes are pushed and edges popped exactly once each |
| ModuleLayering.ReportUnique | scripts/check_module_layering.py:106-156 | two lists meeting that description are equal, so the mapping order never shows |
| ModuleLayering.ReportEmptyIffAcyclic | scripts/check_module_layering.py:106-164 | nothing is reported exactly when the graph without self-edges is acyclic |
| ModuleLayering.AcyclicPopOrder | scripts/check_module_layering.py:138-151 | when nothing is reported, nodes leave the stack one at a time and every edge to another node leads to one that left earlier |
| ModuleGraph.EscapeRefusedExactly | scripts/check_module_layering.py:73-79 | which relative imports are refused: a climb of exactly the package depth, or of at least twice it; shorter climbs yield the right base |
| ModuleGraph.EscapeMissed | scripts/check_module_layering.py:73-79 | a concrete escape that is not refused: the negative slice bound wraps to a non-empty base |
| ModuleGraph.ImportedModules | scripts/check_module_layering.py:50-81 | refused exactly when some statement is; otherwise the set of modules that the names of the statements resolve to |
| ModuleGraph.FileTargets | scripts/check_module_layering.py:50-86 | for one file, the modules its statements refer to: the prefixes of absolute dotted names, climbs counted from the file's package |
| ModuleGraph.BuildModuleGraph | scripts/check_module_layering.py:89-103 | refused exactly when some file climbs too far; otherwise an edge stands exactly where a file lying in one module refers to a dotted name below another one, said of paths and names alone, and every package is a node |
| ModuleGraph.ValidateModuleLayering | scripts/check_module_layering.py:159-164 | the gate accepts exactly when no import is refused and the module graph is acyclic, that is when every component is a single module |
| ModuleGraph.OwnNameLeadsHome | scripts/check_module_layering.py:37-47 | importing a file by its own dotted name leads to the node that holds it |
| ModuleGraph.SameNodeIff | scripts/check_module_layering.py:37-39 | two files share a node exactly when they lie in the same outermost directory or both in none, or that directory is called like the root node |
| ModuleGraph.ImportRoundRefused | scripts/check_module_layering.py:89-164 | no round of sub-packages each importing below the next is ever accepted |
| ModuleGraph.MutualImportsRefused | scripts/check_module_layering.py:89-164 | in particular not two sub-packages that import below each other |
| ReturnReachability.StaticTruthSound | scripts/check_container_image_pins.py:6939-6949 | a static truth value is the one every evaluation takes, if no display consists of starred parts only |
| ReturnReachability.ReachableReturnsSound | scripts/check_container_image_pins.py:6875-6903 | every return any run executes is listed, and a body taken to terminate never completes normally |
| ReturnReachability.StatementSound | scripts/check_container_image_pins.py:6885-6930 | the same for one statement of any kind, with loops, handlers and finally blocks running as often and as far as they may |
| ReturnReachability.SoundIff | scripts/check_container_image_pins.py:6875-6949 | for any body at all, every executed return is listed and a body taken to terminate never falls off its end exactly when the list holds all returns it can execute and terminating is only claimed where falling through is no outcome |
| ReturnReachability.TightIff | scripts/check_container_image_pins.py:6875-6930 | for any body at all, every listed return ends some run exactly when each is among its outcomes |
| ReturnReachability.OverriddenReturnListed | scripts/check_container_image_pins.py:6913-6922 | a concrete `try` whose listed return its `finally` always overrides |
| ReturnOutcomes.OutcomesExact | scripts/check_container_image_pins.py:6875-6930 | the outcomes of a statement list (falling through, break, continue, raise, each return), computed from its syntax, are exactly those of its runs |
| ReturnOutcomes.ExecutedExact | scripts/check_container_image_pins.py:6875-6930 | the returns a statement list can execute, at its end or on the way, computed from its syntax, are exactly those some run executes |
| ReturnReachability.SwallowingWithExact | scripts/check_container_image_pins.py:6907-6908 | a `with` that swallows exceptions is judged right before every continuation exactly when its body is not both taken to terminate and able, by its syntax, to raise |
| ReturnReachability.SwallowedReturnMissed | scripts/check_container_image_pins.py:6907-6908 | a concrete body whose second return runs and is not listed |
| ReturnReachability.EvaluatingBodyCanRaise | scripts/check_container_image_pins.py:6907-6908 | a body whose first statement evaluates something can raise |
| ReturnReachability.UnfixedTestExact | scripts/check_container_image_pins.py:6942-6949 | a conditional is judged right for all branches exactly when its test contains no display made of starred parts only |
| ReturnReachability.ReachableReturnsExact | scripts/check_container_image_pins.py:6875-6930 | the converse on code without `try` and loop `else`: every listed return ends some run, and a body not taken to terminate can complete |
| ReturnLists.ListedExactly | scripts/check_container_image_pins.py:6875-6930 | on code of which every visited part can run, `try` and loop `else` included, the list is exactly the returns some run executes, and terminating is claimed exactly when no run falls off the end |
| ReturnLists.ListedInOrder | scripts/check_container_image_pins.py:6875-6930 | the list keeps the order of the text, with the handlers of a `try` last, and lists nothing twice that stands once |
| CommandSubstitution.BacktickEnd | scripts/check_container_image_pins.py:4557-4567 | the loop finds the first unescaped backtick |
| CommandSubstitution.NestedConstructStep | scripts/check_container_image_pins.py:4589-4598 | arithmetic opens two levels, a nested substitution or backtick is skipped to its end, anything else is plain |
| CommandSubstitution.CommandSubstitutionEnd | scripts/check_container_image_pins.py:4601-4626 | the mutually recursive loop terminates and computes the closing position defined by the recursive scan |
| CommandSubstitution.Collect | scripts/check_container_image_pins.py:4629-4663 | the nested collector appends exactly the commands of the recursive definition to the shared list |
| CommandSubstitution.CollectPast | scripts/check_container_image_pins.py:4640-4658 | one command is appended, then what it contains |
| ShellWords.ScanPieces | scripts/check_container_image_pins.py:4601-4626 | the scan passes over any printed well-formed text, at any depth, adding two levels for each arithmetic expansion in double quotes, in substitutions nested outside quotes too, and nothing else |
| ShellWords.LevelsAdd | scripts/check_container_image_pins.py:4601-4626 | closing a + b levels from any state is closing a of them and then, outside quotes, b |
| ShellWords.SubstitutionEndFound | scripts/check_container_image_pins.py:4601-4626 | for every body printed from the grammar without arithmetic in double quotes, under any prefix and suffix, the matcher returns the parenthesis closing that substitution |
| ShellWords.ScanBody | scripts/check_container_image_pins.py:4601-4626 | past the closing parenthesis the scan goes on with two levels open for each arithmetic expansion in double quotes, and stops there when there is none |
| ShellWords.SubstitutionEndFoundExactly | scripts/check_container_image_pins.py:4570-4626 | under any prefix and suffix the closing parenthesis is found exactly when neither the body nor a substitution nested in it outside quotes has arithmetic in double quotes; with nothing after it no end is found otherwise |
| ShellWords.PlainParenthesesClose | scripts/check_container_image_pins.py:4601-4626 | inside double quotes the levels a substitution leaves open are closed by plain parentheses behind it, and the scan is none the worse |
| ShellWords.SubstitutionCommandsComplete | scripts/check_container_image_pins.py:4633-4660 | the nested `collect`: every command of text whose single-quoted and backticked parts hold nothing it would collect is collected once, at any depth, outermost first and left to right |
| ActiveCode.ActiveShellCode | scripts/check_container_image_pins.py:2251-2285 | the loop leaves what the state machine leaves, character by character, up to a comment |
| ActiveCode.EdgeBehind | scripts/check_container_image_pins.py:2278-2283 | a comment may start at the beginning, and behind white space or one of five signs, and nowhere else |
| ActiveCode.ShellSubstitutionCommands | scripts/check_container_image_pins.py:4629-4663 | the active code of the statement is collected from |
| ActiveCode.PassPieces | scripts/check_container_image_pins.py:2251-2285 | from any state of the pass, with double quotes nested to any depth, it leaves exactly the text with its single-quoted data blanked if and only if it misreads nothing: where it counts itself outside double quotes, no stray apostrophe and no comment sign at an edge |
| ActiveCode.ActiveCodeExact | scripts/check_container_image_pins.py:2251-2285 | the same for a whole statement from its start |
| ActiveCode.StatementCommandsComplete | scripts/check_container_image_pins.py:4629-4663 | of a whole statement that the pass does not misread, double quotes nested to any depth, with or without a comment behind it, the command of every substitution is returned in reading order, its quoted data blanked and nothing moved |
| ActiveCode.UnmarkedStatement | scripts/check_container_image_pins.py:4629-4663 | a statement without apostrophes and comment signs is left as it stands, and every command in it, at any depth, is collected |
| ActiveCode.NestedQuotesMissed | scripts/check_container_image_pins.py:2251-2285 | a concrete statement that the pass misreads, an apostrophe behind a nested double quote: it holds two commands and none is collected |
| EnvSplit.EnvSplitState.ConsumeEscape | scripts/check_container_image_pins.py:2721-2743 | the state after an escape is the specified one, in each quoting context |
| EnvSplit.EnvSplitState.ConsumeQuoted | scripts/check_container_image_pins.py:2676-2699 | likewise inside quotes |
| EnvSplit.EnvSplitState.ConsumeUnquoted | scripts/check_container_image_pins.py:2702-2718 | likewise outside quotes |
| EnvSplit.GnuEnvSplitString | scripts/check_container_image_pins.py:2761-2772 | the loop computes the fold of these steps over the string, or rejects it |
| EnvSplit.SplitYieldsNoMarkers | scripts/check_container_image_pins.py:2627-2772 | splitting never lets a private-use marker character into a token |
| EnvSplit.SplitRoundTrip | scripts/check_container_image_pins.py:2627-2772 | printing tokens in double quotes and splitting again returns the same tokens exactly when none contains a marker character |
| EnvSplitGrammar.SplitMeans | scripts/check_container_image_pins.py:2653-2772 | whatever words are made of (bare characters, every escape, single and double quotes) and whatever stands between them, the string splits into their meanings, up to a `\\c` |
| EnvSplitGrammar.Rejected | scripts/check_container_image_pins.py:2676-2772 | behind any printed text a lone backslash, an unknown escape, an expansion or a quote never closed makes the string invalid |
| EnvCommand.StepDescends | scripts/check_container_image_pins.py:2795-2924 | each token uses up an expansion or moves the index on; a splice leaves everything before the index alone |
| EnvCommand.EnvCommandState.ConsumeSplitOption | scripts/check_container_image_pins.py:2830-2845 | a splice replaces the consumed tokens by the words, within the expansion and length limits, or refuses |
| EnvCommand.EnvCommandState.ConsumeToken | scripts/check_container_image_pins.py:2848-2924 | the state after one token, or the returned parse, is the specified one |
| EnvCommand.ParseGnuEnvCommand | scripts/check_container_image_pins.py:2926-2932 | the parser terminates on every token list although it splices into its own input, and computes the specified parse |
| EnvCommand.ParseOutcome | scripts/check_container_image_pins.py:2795-2932 | everything up to and including `env` is kept, the list stays within the limit, and a returned index points past it at a token that is no assignment |
| EnvCommand.ReparseNormalized | scripts/check_container_image_pins.py:2795-2932 | normalising is idempotent: parsing the normalised list finds the same command at the same index, without a splice |
| EnvCommand.ArgumentsUntouched | scripts/check_container_image_pins.py:2795-2932 | words behind the token at which a parse stops, whatever it found there, are never read: with more of them it stops there again and they follow unchanged exactly when every splice on the way still fits the limit, and otherwise the parse is refused as too large |
| EnvCommand.UnreadArguments | scripts/check_container_image_pins.py:2795-2932 | for every parse, errors included, the original arguments not read are the end of the normalised list, word for word, and a returned command does not lie beyond their start |
| EnvCommand.DashCommandAfterSeparator | scripts/check_container_image_pins.py:2891-2924 | a word with a leading dash is returned as command only after `--` or an assignment |
| EnvGrammar.OptionReads | scripts/check_container_image_pins.py:2775-2924 | every option in every spelling, short in a cluster or long, with or without its value attached, is read as what the grammar says it is |
| EnvGrammar.OptionsPassed | scripts/check_container_image_pins.py:2830-2932 | printed options are passed over with their values, each -S string replaced in its place by the options it splits into, at any nesting, or the parse is too large |
| EnvGrammar.InvocationParsed | scripts/check_container_image_pins.py:2926-2932 | of a printed invocation the command is the word behind the options, the separator and the assignments, and nothing else of the list changes |
| EnvGrammar.UnknownRefused | scripts/check_container_image_pins.py:2848-2889 | a word with a leading dash that is the first token of no option, no separator and no request for help is refused |
| EnvGrammar.MissingRefused | scripts/check_container_image_pins.py:2820-2889 | an option whose value would have to follow and does not is refused |
| EnvGrammar.BadStringRefused | scripts/check_container_image_pins.py:2830-2836 | a -S string that does not split is refused |
| EnvGrammar.HelpEnds | scripts/check_container_image_pins.py:2909-2910 | a request for help ends the parse without a command |
| WrapperResolution.WrappedAdvances | scripts/check_container_image_pins.py:3067-3096 | every peel strictly advances |
| WrapperResolution.WrappedPosition | scripts/check_container_image_pins.py:2935-3096 | the command position behind each wrapper, option by option, is the specified one |
| WrapperResolution.ResolveCommandPosition | scripts/check_container_image_pins.py:3099-3139 | resolution terminates and computes the specified position |
| WrapperResolution.ResolvedCommand | scripts/check_container_image_pins.py:3099-3139 | a resolved position is in range and no wrapper, and behind a command the gate does not know no Docker-like word is left |
| WrapperResolution.EnvScanFinds | scripts/check_container_image_pins.py:2926-2942 | for the resolver, the splicing parser finds what a plain scan finds that fails on the first `-S` |
| WrapperResolution.ResolveShift | scripts/check_container_image_pins.py:3099-3139 | resolution does not depend on what stands before its start |
| WrapperResolution.BareWrappersTransparent | scripts/check_container_image_pins.py:2935-3139 | any nesting of option-free one-word wrappers before a command word shifts the resolved position by exactly their number |
| WrapperGrammar.KnownWordsExact | scripts/check_container_image_pins.py:2989-3014 | for each wrapper the words known to take a value are those of its options in both spellings |
| WrapperGrammar.WrapperPeels | scripts/check_container_image_pins.py:2935-3096 | behind any printed wrapper invocation (options with separate or attached values, clusters of `exec`, a separator, the duration of `timeout`, an `env` invocation) the command starts where the printed text ends |
| WrapperGrammar.WrappersTransparent | scripts/check_container_image_pins.py:3099-3139 | any nesting of such invocations shifts the resolved position by exactly the length of its text |
| WrapperGrammar.PrefixTransparent | scripts/check_container_image_pins.py:3101-3102 | negations and assignments in front shift it likewise |
| WrapperGrammar.NameOfPath | scripts/check_container_image_pins.py:3104 | the name of a path is what stands behind its last slash |
| WrapperGrammar.CommandJudged | scripts/check_container_image_pins.py:3099-3139 | a command that is no wrapper is found where it stands, unless the gate does not know it and a Docker call stands behind it |
| WrapperGrammar.StdbufRefuses | scripts/check_container_image_pins.py:2944-2959 | a word with a dash that is no option of `stdbuf` is refused |
| WrapperGrammar.ExecRefuses | scripts/check_container_image_pins.py:3034-3055 | a word with a dash that is no option of `exec` is refused |
| WrapperGrammar.CommandQuery | scripts/check_container_image_pins.py:3058-3061 | `command -v` and `command -V` execute nothing |
| WrapperGrammar.SudoClusterMisread | scripts/check_container_image_pins.py:3017-3031 | a concrete line whose Docker call is refused because the value of a clustered option is taken for the command |
| Namerefs.FollowInPlace | scripts/check_container_image_pins.py:3353-3361 | following a chain with a visited set ends at its sink, or somewhere on it when there is none |
| Namerefs.ShortcutSameSinks | scripts/check_container_image_pins.py:3353-3361 | redirecting one alias along its own chain changes no alias's sink |
| Namerefs.CompressNamerefs | scripts/check_container_image_pins.py:3345-3362 | in any iteration order, although earlier entries are already rewritten, an alias whose chain leaves the map ends at that chain's sink, and no other alias leaves the map |
| ShellConstants.RecordShellOccurrences | scripts/check_container_image_pins.py:3365-3380 | every name gains exactly the occurrences this segment has for it, in order |
| ShellConstants.RecordScript | scripts/check_container_image_pins.py:3461-3498 | the book holds every occurrence of every name over the whole script |
| ShellConstants.ShellNamerefs | scripts/check_container_image_pins.py:3324-3362 | the references are the compression of exactly the aliases defined once and not under control flow |
| ShellLiterals.DeclaredIff | scripts/check_container_image_pins.py:3345-3354 | an alias counts exactly when one segment declares it, outside control flow, and stands for what that segment says |
| ShellLiterals.LiteralIff | scripts/check_container_image_pins.py:3379-3424 | a variable is given a literal text exactly when the one thing the script does to it is an assignment of that text, outside control flow, without expansions and before every use |
| ShellRuns.NamerefsExact | scripts/check_container_image_pins.py:3345-3362 | when an uncontrolled segment runs, exactly the namerefs defined before it are in force |
| ShellRuns.CellAlong | scripts/check_container_image_pins.py:3365-3424 | a variable with one writer keeps its inherited value until that writer ran and holds the written text ever after, if the writer's name reaches it by then |
| ShellRuns.ConstantExact | scripts/check_container_image_pins.py:3413-3424 | for a variable that is no nameref: its literal value is what every run sees at every use exactly when the name it was assigned through reaches it by the namerefs defined up to that point |
| ShellRuns.EarlyAliasMisjudged | scripts/check_container_image_pins.py:3365-3424 | a concrete script in which it does not: an assignment through an alias declared afterwards |
| ShellRuns.OwnNameReaches | scripts/check_container_image_pins.py:3413-3424 | an assignment by the variable's own name always does |
| ShellRuns.ConstantMissed | scripts/check_container_image_pins.py:3413-3424 | otherwise some run from some inherited value contradicts the constant |
| ShellRuns.NamerefUseMisjudged | scripts/check_container_image_pins.py:3365-3424 | a concrete nameref whose own use is given the alias target as text instead of the target's value |
| ShellStages.MustHoldSound | scripts/check_container_image_pins.py:3413-3424 | if the script says stage by stage that a variable must hold a text, every run at that stage shows it |
| ShellStages.MustHoldComplete | scripts/check_container_image_pins.py:3413-3424 | if not, some run at that stage from some inherited value shows another text |
| ShellStages.ConstantHoldsIff | scripts/check_container_image_pins.py:3413-3424 | a constant given to any name, nameref or not, is right in every run and at every use exactly when, at each stage the use can be reached at, the variable the name then denotes must hold it |
| ShellStages.UnwrittenTargetMisjudged | scripts/check_container_image_pins.py:3365-3424 | whatever constant a nameref is given is wrong at every use at which it leads to a variable the script never writes |
| WrapperSpecs.MergeAssociative | scripts/check_container_image_pins.py:7601-7644 | merging specs is associative, templates in order included |
| WrapperSpecs.MergeAbsorbs | scripts/check_container_image_pins.py:7601-7644 | None is the identity, merging is idempotent, and merging again what is already in adds nothing |
| WrapperSpecs.BelowPartialOrder | scripts/check_container_image_pins.py:7601-7644 | a spec is below its merges, and this relation is transitive |
| WrapperOrder.MergeLeast | scripts/check_container_image_pins.py:7601-7630 | in the order of specs field by field, the merge says what both specs say and nothing more |
| WrapperOrder.FirstComesFirst | scripts/check_container_image_pins.py:7601-7630 | positional parameters, the names behind the stars and the order of templates are the first spec's, and behind its templates come the second's new ones in their order |
| WrapperOrder.LayersLeast | scripts/check_container_image_pins.py:6253-6269 | at every depth the merged layers say what each input says there and nothing more |
| WrapperSpecs.MergeCallableLayers | scripts/check_container_image_pins.py:6253-6269 | the nested loops merge depth by depth and trim |
| WrapperSpecs.MergeLayersAt | scripts/check_container_image_pins.py:6253-6269 | merged layers hold at each depth the merge of what the inputs hold there, and end in a spec |
| WrapperSpecs.AdvanceUndoesShift | scripts/check_container_image_pins.py:6243-6251 | advancing undoes a shift |
| WrapperSpecs.LayersMove | scripts/check_container_image_pins.py:6243-6251 | a shift moves every layer one call away, and advancing one nearer |
| WrapperSpecs.ShiftOverMerge | scripts/check_container_image_pins.py:6243-6269 | shifting distributes over merging |
| WrapperRefresh.JoinRaisesRank | scripts/check_container_image_pins.py:7601-7644 | a merge that changes a spec strictly raises its rank |
| WrapperRefresh.UpdateKeeps | scripts/check_container_image_pins.py:7569-7599 | after one update every function is stable or queued, if transfer reads only recorded dependencies |
| WrapperRefresh.FunctionScope.Refresh | scripts/check_container_image_pins.py:7569-7599 | over a finite universe the worklist terminates with every spec saying what its definition says given the others, nothing said before lost, and nothing said that no such solution would have to say |
| ImageReferences.PartsExact | scripts/check_container_image_pins.py:561-577 | a reference is read without error exactly when it is the printed form of a readable tag and, if pinned, a digest, and then these are what is read |
| ImageEntries.ReadableTag | scripts/check_container_image_pins.py:549-551 | a tag is readable exactly when something stands behind the colon of its last component and does not end in one |
| ImageEntries.RegistryOfTag | scripts/check_container_image_pins.py:554-559 | the registry is the first component where that names a host, and the public hub otherwise |
| ImageCatalog.LoadCatalog | scripts/check_container_image_pins.py:580-671 | a catalogue is returned exactly when the document has one |
| ImageCatalog.LoadEntries | scripts/check_container_image_pins.py:589-644 | the loop returns the entries in order exactly when each reads and no tag repeats |
| ImageCatalog.LoadLocal | scripts/check_container_image_pins.py:646-670 | likewise for the allowlist of local images |
| ImageCatalog.ReadingTrusted | scripts/check_container_image_pins.py:605-644 | in a loaded catalogue every reference is tag, `@`, digest; no two entries share a tag or a reference; every entry declares a consumer |
| ImageEntries.ImageReads | scripts/check_container_image_pins.py:593-643 | an image entry is read exactly from a mapping that holds its nine fields under their names and nothing else, each of its own shape |
| ImageEntries.LocalReads | scripts/check_container_image_pins.py:645-667 | an allowlist entry is read exactly from a mapping of its three fields |
| ImageEntries.LocalReferenceIff | scripts/check_container_image_pins.py:649-650 | an allowlisted reference ends in `:local` and holds no digest and no variable |
| ImageGate.PinEmptyIff | scripts/check_container_image_pins.py:11429-11449 | a non-local use passes exactly when its reference equals a catalogued reference character for character |
| ImageGate.LocalCleanIff | scripts/check_container_image_pins.py:11393-11423 | no local finding exactly when each local use is an allowlisted one in every respect and each allowlisted one is used |
| ImageGate.PinsCleanIff | scripts/check_container_image_pins.py:11425-11461 | no pin finding exactly when each other use is a catalogued reference and each entry declares exactly the files using it |
| ImageGate.CheckLocal | scripts/check_container_image_pins.py:11393-11423 | the loop reports each local use and each orphan, in order |
| ImageGate.CheckPins | scripts/check_container_image_pins.py:11425-11461 | the loop reports each other use, then each entry against the consumers actually seen |
| ImageGate.Deduplicate | scripts/check_container_image_pins.py:11359-11360 | the first occurrence of each finding is kept, in order |
| ImageGate.ValidateRepository | scripts/check_container_image_pins.py:11363-11462 | the findings are the specified ones, and there are none exactly when discovery had none, the catalogue loads, and repository and catalogue agree |
| ImageGate.AcceptedUse | scripts/check_container_image_pins.py:11363-11462 | in an accepted repository every non-local use is tag, `@`, digest of the one entry with that tag, which declares the using file |
| ImageFindings.FindingsExact | scripts/check_container_image_pins.py:11363-11462 | every kind of finding is reported exactly when what it says is the case |
| ImageFindings.FirstOccurrencesInOrder | scripts/check_container_image_pins.py:11359-11360 | without duplicates the findings stand in the order of their first occurrences |
| RecoveryDelta.SplitDelta | scripts/mint_recovery_contract_v25.py:229-257 | the loops classify each row and refuse as specified |
| RecoveryDelta.AcceptedIffDeclared | scripts/mint_recovery_contract_v21.py:227-255 | a delta is accepted exactly when, off the exempt keys, each changed row is rewritable, each new row may be added, and no row just disappears |
| RecoveryDelta.AcceptedDeltaDescribes | scripts/mint_recovery_contract_v21.py:227-255 | the updated rows are the observed ones off the exempt keys and the contract's own on them |
| RecoveryDelta.AcceptedDeltaExact | scripts/mint_recovery_contract_v25.py:229-257 | without exemptions the updated rows are exactly the observed rows |
| RecoveryDelta.LeftoversAreExempt | scripts/mint_recovery_contract_v21.py:486-499 | measuring again after the update finds only rows with exempt keys |
| RecoveryText.FindBlock | scripts/mint_recovery_contract_v25.py:136-151 | the search returns the opening and closing lines of the named block, or fails |
| RecoveryLines.HeaderIff | scripts/mint_recovery_contract_v25.py:136-151 | how a header line looks |
| RecoveryLines.OpeningIff | scripts/mint_recovery_contract_v25.py:136-151 | how an opening line looks, white space at its end aside |
| RecoveryLines.NeedsCommaIff | scripts/mint_recovery_contract_v25.py:208-219 | which line lacks its comma |
| RecoveryLines.BlockExact | scripts/mint_recovery_contract_v25.py:136-151 | a block is found exactly when its first header has a closing line behind it and an opening line in between |
| RecoveryText.InsertPlain | scripts/mint_recovery_contract_v25.py:208-219 | the lines after inserting rendered rows, comma repaired before and dropped after |
| RecoveryText.AppendRows | scripts/mint_recovery_contract_v25.py:190-226 | the rows are rendered one after the other, one value per line or one row per line as the block asks, and inserted |
| RecoveryText.BrokenValues | scripts/mint_recovery_contract_v25.py:203-205 | without line breaks in its values, joining and splitting a row's text gives one line per value |
| RecoveryText.RewriteRow | scripts/mint_recovery_contract_v25.py:268-282 | the line after the unique match of the key lines is replaced when it is a fingerprint; every other case fails |
| RecoveryBlocks.BlockFound | scripts/mint_recovery_contract_v25.py:136-151 | in a well-formed contract the block is found where its rows stand |
| RecoveryBlocks.InsertAppendsRows | scripts/mint_recovery_contract_v25.py:208-226 | inserting yields the text of the block with the rows appended, commas between rows only, and everything around it unchanged |
| RecoveryBlocks.RewriteReplacesRow | scripts/mint_recovery_contract_v25.py:268-282 | rewriting succeeds exactly for a declared key held by a row with a fingerprint, and yields the text of the block with that row replaced and nothing else |
| RecoveryMint.RewriteRows | scripts/mint_recovery_contract_v25.py:391-392 | the rewriting loop applies the rewrites in order and stops at the first failure |
| RecoveryMint.MintBlock | scripts/mint_recovery_contract_v25.py:381-393 | one turn of the loop: split, completeness checks, rewrites and append, in this order |
| RecoveryMint.RewriteAllReplaces | scripts/mint_recovery_contract_v25.py:391-392 | the rewriting loop replaces rows by key and leaves all other text |
| RecoveryMint.MintedBlockText | scripts/mint_recovery_contract_v25.py:378-393 | the written text is the text of the updated rows, byte for byte the same around the block |
| RecoveryMint.MintedBlockDescribes | scripts/mint_recovery_contract_v25.py:378-393 | and these rows are exactly the observed ones; with exemptions, off the exempt keys |
| RecoveryMint.MintsIff | scripts/mint_recovery_contract_v25.py:378-393 | minting goes through exactly when the delta is accepted, its keys are the declared ones, and every rewritten row is there with a fingerprint |
| RecoveryMint.TextDeterminesRows | scripts/mint_recovery_contract_v25.py:203-205 | two well-formed blocks with the same text have the same rows |
| RecoveryMint.LineNeverRewritten | scripts/mint_recovery_contract_v25.py:268-282 | in a block with one row per line the search for a key finds nothing, so no row is ever rewritten |
| RecoveryMint.LineBlockMints | scripts/mint_recovery_contract_v25.py:378-393 | minting such a block goes through exactly when the delta is accepted as declared and rewrites nothing, and then appends the additions |
| RecoveryMint.LineBlockDescribes | scripts/mint_recovery_contract_v25.py:378-393 | its rows are then the observed ones off the exempt keys and the contract's own on them |
| RecoveryContract.MintContract | scripts/mint_recovery_contract_v25.py:378-393 | the loop threads the lines through all blocks and stops at the first refusal |
| RecoveryContract.BlockPlaced | scripts/mint_recovery_contract_v25.py:136-151 | in a document of several blocks each is found by its name, whatever rows stand before it |
| RecoveryContract.ContractDescribes | scripts/mint_recovery_contract_v25.py:378-393 | when the loop goes through, each addressed block, of either layout, describes its own observed rows, the rows of every other block are untouched, and so is every line outside the blocks |
| RecoveryContract.ContractMintsIff | scripts/mint_recovery_contract_v25.py:378-393 | the loop goes through exactly when for each block the difference is accepted, is the declared one, and every row to rewrite is there, on lines of its own, with a fingerprint |
| ContractText.MintSql | scripts/mint_recovery_contract_v22.py:259-264 | the replacements are applied in order, each only if its anchor counts exactly one |
| ContractText.RemoveDelta | scripts/mint_recovery_contract_v22.py:267-273 | the inverse replacements, in the same order |
| ContractText.CountedOnce | scripts/mint_recovery_contract_v22.py:253-256 | a string that cannot overlap itself and counts one, without overlaps, occurs at one place only |
| ContractText.BackwardInverts | scripts/mint_recovery_contract_v22.py:259-273 | for any list of edits whose results no later anchor can touch and which cannot overlap themselves, the same edits backwards, in the same order, recover the text exactly whenever both directions succeed |
| ContractText.RemoveInvertsMint | scripts/mint_recovery_contract_v22.py:253-273 | hence removing the delta recovers the inherited text, when the added proof overlaps neither itself nor the identity anchors |
| ContractInverse.UndoneIff | scripts/mint_recovery_contract_v22.py:253-273 | a script of one edit is undone by its reverse on every text on which both succeed exactly when no self-overlap of its result does harm; the condition is decidable from the two strings |
| ContractInverse.RestoredRoundTrip | scripts/mint_recovery_contract_v22.py:235-273 | for a restored database the actual edits meet every premise: each v21 text that both scripts accept comes back byte for byte |
| Watchdog.Service.Run | scripts/mcp_http_watchdog.py:119-162 | one cycle: the counter file and the submitted commands after it, and the exit code, for every unit state, probe and failing operation |
| Watchdog.Service.Count | scripts/mcp_http_watchdog.py:147-155 | the end of a cycle that found the active unit unhealthy |
| Watchdog.StepCommands | scripts/mcp_http_watchdog.py:119-162 | exactly which lifecycle commands a cycle submits: reset and start for a failed unit, restart at the threshold, nothing otherwise |
| Watchdog.StepCounter | scripts/mcp_http_watchdog.py:119-162 | what a cycle can do to the counter: grow by one on an unhealthy probe, be cleared, or be reset by a restart |
| Watchdog.StepCounterExactly | scripts/mcp_http_watchdog.py:119-162 | the counter after one cycle, in every case |
| Watchdog.StepExit | scripts/mcp_http_watchdog.py:119-162 | the exit code is 0 exactly when all the cycle had to do went through, and 3 otherwise |
| Watchdog.BoundedNextIff | scripts/mcp_http_watchdog.py:128-155 | if the counter stands for no more failures than the streak holds, one cycle keeps it so exactly when it does not fail to clear a positive counter |
| Watchdog.CounterBounded | scripts/mcp_http_watchdog.py:66-74 | while no cycle fails to clear a positive counter, the stored number never exceeds the unhealthy probes since the last healthy probe, recovery or restart attempt; it stays positive and below the threshold in any run |
| Watchdog.RestartJustified | scripts/mcp_http_watchdog.py:119-162 | then every restart follows at least `threshold` unhealthy probes of the active unit since the last healthy probe, recovery or restart attempt |
| Watchdog.FuturesJustifiedIff | scripts/mcp_http_watchdog.py:119-162 | every restart of every future that can clear the counter is justified exactly when the counter does not exceed the streak now |
| Watchdog.RestartExactly | scripts/mcp_http_watchdog.py:119-162 | undisturbed, a restart is submitted exactly at the threshold-th such probe |
| Watchdog.RestartsPaidFor | scripts/mcp_http_watchdog.py:119-162 | whatever fails or is damaged, restarts times threshold plus the stored count never exceed the unhealthy probes |
| Watchdog.QuietCycle | scripts/mcp_http_watchdog.py:133-146 | an inactive unit, one in transition, an unreadable state, a healthy or a failing probe cause no lifecycle command |
| Watchdog.UnclearedHealthyProbe | scripts/mcp_http_watchdog.py:143-145 | a concrete run in which clearing the counter fails and a restart follows one unhealthy probe after a healthy one |
| Similarity.CauchySchwarz | scripts/check_embedding_model_drift.py:121-136 | for vectors of any length the squared dot product is at most the product of the squared norms |
| Similarity.CosineBounded | scripts/check_embedding_model_drift.py:121-136 | a value exists exactly for equal lengths, and lies in [-1, 1] |
| Similarity.CosineScaled | scripts/check_embedding_model_drift.py:121-136 | scaling either side by a positive factor changes nothing |
| Similarity.CosineOneIff | scripts/check_embedding_model_drift.py:121-136 | the value is 1 exactly when both norms are positive and the vectors point the same way |
| Similarity.PearsonBounded | scripts/embedding_cutover_check.py:200-211 | the correlation lies in [-1, 1] and is the cosine of the centred lists |
| Similarity.PearsonAffine | scripts/embedding_cutover_check.py:200-211 | a change of origin and a positive change of unit on either side changes nothing |

## Left out

Not modelled:

- File walking, YAML, JSON and Python parsing, SQL, systemctl, HTTP and argument parsing: their results are inputs.
- Python's memory limits and recursion limit, and the source size limit of the layering gate.
- Error message texts: refusals are tags or None, and a `Finding` names its use, tag or source.
- Most of the Docker call analysis, such as SDK names, reflection and process dispatch: pattern lists over syntax trees without a compact specification.
- Shell lexing and the regular expressions: segments, tokens and assignments are inputs.
- `_segment_nameref_definitions` and `_standalone_assignments`: a segment carries its definitions, assignments and mutations.
- `_shell_variable_state` past the recording of occurrences, and the error list it fills.
- The `shell_mode` flag of `_sudo_command_position`, which the resolver ignores.
- Identifier and platform patterns, ISO dates and path tests of the catalogue: predicates in `Rules`.
- `DockerCliWrapperSpec` fields that are expressions: a template stands for its dump, so two templates with one dump are one.
- The other mint scripts, the manifests, ACL assets, bindings, scalar patches and catalogue counts: constants and straight-line checks.
- Rounding, infinities and NaN in the similarity functions: they are idealised over the reals, with the square roots as arguments.
- DSN guards, environment checks, migrations and shard plans.

Stated with a restriction:

- ModuleGraph.EscapeRefusedExactly: says which climbs are refused, not what the wrapped base then resolves to.
- ReturnReachability.ReachableReturnsSound: premises are that no test contains a display of starred parts only and that no exception-swallowing `with` surrounds a body that can raise and is taken to terminate; `SoundIff` needs no premise.
- ReturnReachability.ReachableReturnsExact: not for `try` nor for a loop `else`; `TightIff` covers every body.
- ShellWords.SubstitutionEndFound: bodies with arithmetic in double quotes are excluded, and `SubstitutionEndFoundExactly` shows that they have to be.
- ShellWords.SubstitutionEndFoundExactly: substitutions inside double quotes must have no arithmetic in double quotes of their own; `PlainParenthesesClose` shows that counting the expansions does not decide those.
- ShellWords.SubstitutionCommandsComplete: `collect` alone does not know quotes, so single-quoted text must hold nothing it would collect; nor may backticked text, whose own substitutions are not modelled.
- ActiveCode.StatementCommandsComplete: a comment may stand at the end only, and what the pass leaves of single-quoted data inside nested double quotes must hold nothing `collect` would collect.
- WrapperResolution.BareWrappersTransparent: for wrappers without options; `WrapperGrammar.WrappersTransparent` covers all.
- WrapperGrammar.WrappersTransparent: as the script reads them, a word of several `sudo` flags takes no value (`SudoClusterMisread`), and one of `exec` with an -a anywhere in it takes the next word; the command word holds no equals sign and no leading dash.
- EnvGrammar.InvocationParsed: a -S string is one whose words are options; `OptionsPassed` together with `BadStringRefused` is what holds of others.
- Namerefs.CompressNamerefs: an alias on a circular chain is only known to stay inside the map.
- ShellRuns.ConstantExact: every nameref is declared once, by a segment outside control flow, and the variable is no nameref itself.
- ShellStages.ConstantHoldsIff: every nameref is declared once, by a segment outside control flow.
- WrapperRefresh.FunctionScope.Refresh: terminates over a finite universe of names and templates; functions outside the initial worklist must have been stable, and transfer must read only recorded dependencies.
- RecoveryBlocks.RewriteReplacesRow: rows hold a key and one fingerprint, without line breaks.
- RecoveryMint.MintedBlockDescribes: for blocks with one value per line; `LineBlockDescribes` states it for those with one row per line, whose values are given as spelled in SQL.
- ContractText.RemoveInvertsMint: the added proof must overlap neither itself nor the identity anchors; for the live variant it is an argument, since part of it is read from a migration.
- RecoveryContract.ContractDescribes: each block is minted once, and no header of a block appears in the lines before it.
- Watchdog.RestartJustified: no cycle before it may fail to clear a positive counter, which `BoundedNextIff` shows to be the exact condition; `RestartsPaidFor` holds without it.
