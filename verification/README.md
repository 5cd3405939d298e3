# Pointlock compiler core: a verified model

Pointlock compiles YAML flows to content-addressed artifacts. These Dafny
modules model the compiler's hardest parts, and prove what they are for:

- the text form of expressions: parsing, rendering, string interpolation
  (`ExprAst`, `NamePatterns`, `ExprGrammar`, `ExprCursor`, `ExprLocality`,
  `JsonString`, `ExprRoundTrip`, `ExprSpelling`, `ExprAcceptance`, `ExprQuotes`,
  `ScalarClass`, `Interpolation`, `InterpolationMeaning`, `ScalarMeaning`,
  `ScalarSplits`);
- evaluation, static checks and type inference of expressions (`Evaluator`,
  `JsonEquality`, `ExprCheck`, `ExprMeaning`, `ExprSoundness`);
- the YAML event builder (`PlainScalars`, `PlainScalarMeaning`, `YamlEvents`,
  `YamlBuilder`, `YamlReading`, `YamlProofs`, `YamlKeyCharge`, `YamlAliases`);
- macro expansion (`Macros`, `Normalizer`, `MacroSubstitution`,
  `MacroElaboration`, `StepNodeIds`, `MacroHygiene`, `MacroOrigins`,
  `MacroGrowth`, `MacroReferences`, `MacroScan`);
- the scope walk of the check phase (`FlowSteps`, `FlowChecker`, `FlowOrder`,
  `FlowChoices`, `FlowIdSites`, `FlowAcceptance`);
- binding: suggestions, channel chains, features (`EditDistance`, `ChainOrder`,
  `FeatureSets`);
- canonical JSON and hashing (`Utf16Order`, `Canonical`, `JsonReader`,
  `JsonLayout`, `StepHashes`, `StepHashFields`);
- the subflow linker and its link closure (`LinkStates`, `Linking`,
  `SubflowLinker`, `LinkClosure`, `LinkContent`, `LinkFailures`, `LinkDepth`,
  `LinkRoot`, `LinkLimits`);
- two folds over the run ledger (`LedgerFolds`, `LedgerLines`).

Objects that the program updates in place (`Cursor`, `Builder`, `Checker`,
`StepNormalizer`, `BodyScanner`, `Writer`, `Linker`) are classes. Each method is proved equal
to a function of the old state, and the properties are proved of those
functions: where a function computes an answer, a theorem says which answer, by a
relation or a reference definition that does not use the function.
`dafny verify dfyconfig.toml` checks the project; nothing is executed.

Foreign code is a parameter: number text, RFC 9535 queries, regular
expressions, double conversion, SHA-256, file access, and the phases that a
model leaves out. What a theorem needs of it is in its preconditions: number
text is injective and of number characters, the digest has no collisions,
plain scalars resolve to scalars.

## What the proofs found

Where the program and its comments or documents differ, the model follows the
program. Where a promise fails, an input shows it, and a theorem over all inputs
says when it is kept.

- A `}}` inside an island's string literal is said to fail always, never
  silently. That holds for a scalar with one `${{` (`OneIslandMeans`), for any number
  of islands of which one is cut short and holds no `${{` (`OneCutIslandFails`), and
  whenever an island is left inside a literal and the later ones parse
  (`OpenIslandFails`). With a second `${{` in the island it may not:
  `concat('}}', '${{')` is split into text that parses and evaluates to a different
  string (`MisSplitCanBeSilent`).
- A value has its inferred type exactly unless the expression is a `coalesce` of
  nothing but absent references, which is null (`TypePreservationUnlessAbsent`).
- Patterns are checked without their flags, so a checked expression may still fail
  on a pattern exactly if that pattern does not compile under its flags
  (`FlaggedCallExact`, `CheckMissesFlags`).
- Equality is transitive exactly unless two different integers are each equal to
  one double (`JsonEqTransitive`, `RoundingBreaksTransitivity`).
- `MAX_CALL_DEPTH` is documented as the longest static call chain, with the root
  among the eight frames; the code allows eight calls below the root. The cache is
  consulted before the limit, so the order of references decides: every flow is
  reached by some chain within the limit (`EveryFlowIsNear`), all chains are within
  it exactly if no cached flow was too high where it was found (`DepthBoundExact`),
  and a closure can hold a chain of any length (`DepthBoundIsOnTheStack`).
- The root is not registered: the closure has one hash per flow id exactly if no
  callee of the root's flow id has another hash (`RootKeepsRegistry`,
  `RootEscapesRegistry`), and with a collision-free digest exactly if no callee
  declares the root's flow id (`RootIdIsItsOwn`).
- The compile cache is keyed by canonical path, while references resolve against
  the name a file was reached by. Through a symbolic link the two differ
  (`CacheIgnoresName`); for a file that leads to no such link caching is transparent
  (`CachedIsRecompiled`).
- The one-segment rule for author ids holds for every step that is not expanded
  (`AuthorIdExact`) and never for the id of a macro call, which may be `a:b`
  (`CallIdsAreUnchecked`, `AnyCallIdGoesThrough`).
- `expect_schema` beside a macro call is accepted and dropped, although only `id`
  and `preflight` are said to be allowed (`SchemaBesideCallIsAccepted`,
  `SchemaBesideCallIsDropped`).
- The number of expanded nodes is said to be limited. Only the depth is: a chain of
  macros doubles at every level (`ChainDoubles`).
- Mapping keys are charged twice against the node budget, once when read and once
  when their mapping closes (`NodeBudget`). A tree is accepted exactly if its size
  counted so fits (`ReplayInvertsFlatten`), and one of 60,003 nodes is refused
  (`KeysCountTwice`).
- After an `if` the names of both branches are in scope. Every read of an accepted
  flow is bound under some choice of branches (`AcceptedReadsCanBeBound`), and under
  every choice that reaches it exactly if its key is definitely assigned
  (`BoundExactlyIfDefinite`), which acceptance does not ask for
  (`BranchBindingMayBeMissing`).
- The report and the pending list close a request by different purposes; they agree
  exactly if those close the same requests (`FoldsAgreeExactly`). A request whose
  step has exited is settled in the report and still pending
  (`SettledStaysPending`).

## Model

| member | source | states |
|---|---|---|
| ExprCursor.ParseText | crates/pointlock-compiler/src/expr_text.rs:49-60 | a fresh cursor over any text ends with exactly the result of the grammar, and terminates on every input |
| ExprAcceptance.AcceptedExactly | crates/pointlock-compiler/src/expr_text.rs:49-278 | a text is accepted as an expression if and only if it spells that expression, by a structural relation over blanks, quotings, escapes, numbers, keywords, paths and calls by name, and the nesting is below 64 |
| ExprAcceptance.FaultsExactly | crates/pointlock-compiler/src/expr_text.rs:112-143 | an unknown function or a bad reference is reported if and only if the text begins like calls of known functions with correctly spelled arguments up to that word, which is no function before a parenthesis or no path elsewhere |
| ExprCursor.Cursor.Expression | crates/pointlock-compiler/src/expr_text.rs:94-110 | the recursive descent moves the cursor to where the grammar stops and returns its value or its error class, depth limit included |
| ExprCursor.Cursor.Word | crates/pointlock-compiler/src/expr_text.rs:112-143 | a word is read as keyword, call or reference path, as the grammar says |
| ExprCursor.Cursor.Arguments | crates/pointlock-compiler/src/expr_text.rs:145-167 | the argument loop collects the arguments the grammar reads, one nesting level deeper |
| ExprCursor.Cursor.ParseDouble | crates/pointlock-compiler/src/expr_text.rs:184-195 | the loop over a double-quoted literal builds the string the grammar reads |
| ExprCursor.Cursor.ParseUnicode | crates/pointlock-compiler/src/expr_text.rs:213-232 | surrogate pairs are combined and lone surrogates refused, as the grammar says |
| ExprLocality.ExprLocal | crates/pointlock-compiler/src/expr_text.rs:94-167 | a parse is unchanged inside a larger text that goes on with `,` or `)`, at any depth that leaves room for its nesting; without that room it is a syntax error |
| ExprLocality.ParsedFits | crates/pointlock-compiler/src/expr_text.rs:94-102 | whatever is parsed at a depth nests less than the limit leaves at that depth |
| ExprRoundTrip.RenderRoundTrip | crates/pointlock-compiler/src/expr_text.rs:49-182 | every expression with scalar literals parses back from its rendering exactly when its nesting is below 64, and is a syntax error otherwise |
| ExprRoundTrip.QuoteRoundTrip | crates/pointlock-compiler/src/normalize.rs:686-689 | the double-quoted reader undoes the JSON quoting of every string, whatever follows (section 7 of RFC 8259) |
| ExprRoundTrip.UnicodeEscapeRoundTrip | crates/pointlock-compiler/src/expr_text.rs:213-246 | decoding inverts UTF-16 escaping for every character |
| ExprRoundTrip.UnicodeEscapeSound | crates/pointlock-compiler/src/expr_text.rs:213-246 | an accepted escape is the UTF-16 encoding of the character it yields: no second spelling, no lone surrogate |
| ExprAst.RefPathIsWord | crates/pointlock-ir/src/primitives.rs:402-457 | every grammatical reference path is one word of the expression text and no keyword |
| NamePatterns.RefPathPattern | crates/pointlock-ir/src/primitives.rs:402-451 | the hand-written validator accepts exactly the texts of at most 1024 characters that the published pattern matches, read as a regular expression |
| NamePatterns.StepIdPattern | crates/pointlock-ir/src/primitives.rs:231-251 | a text has only grammatical segments if and only if the published pattern of step ids matches it |
| NamePatterns.IdentifierPattern | crates/pointlock-ir/src/primitives.rs:45-49 | identifiers are exactly what their pattern matches |
| NamePatterns.SegmentPattern | crates/pointlock-ir/src/primitives.rs:51-55 | author segments are exactly what their pattern matches |
| NamePatterns.ReferencedStepExact | crates/pointlock-ir/src/primitives.rs:456-461 | the step a grammatical path reads is the segment between `steps.` and the next dot, and only that |
| Interpolation.DesugarInterpolation | crates/pointlock-compiler/src/normalize.rs:655-684 | the loop over the remaining text yields the call text of the split, or the first split error |
| Interpolation.SplitExact | crates/pointlock-compiler/src/normalize.rs:655-684 | a template splits back into its pieces if and only if no literal run holds `${{`, no two runs are adjacent, and no island is blank or holds or ends in `}}` |
| Interpolation.SplitSound | crates/pointlock-compiler/src/normalize.rs:655-684 | splitting any accepted text loses nothing and yields only well-formed pieces |
| InterpolationMeaning.ConcatCallParses | crates/pointlock-compiler/src/normalize.rs:682-683 | the desugared text parses to `concat` of exactly the pieces in order, if and only if one more nesting level fits |
| InterpolationMeaning.InterpolationPreservesMeaning | crates/pointlock-compiler/src/normalize.rs:655-689 | for every well-formed template whose islands parse, desugaring yields text that parses to the pieces and evaluates to the textual splice, or is a syntax error if one more nesting level does not fit |
| ScalarMeaning.ClassifiedExactly | crates/pointlock-compiler/src/normalize.rs:636-645 | over all well-formed templates: no expression if and only if there is no island; one whole expression if and only if nothing but blanks precedes the first island, `}}` ends the scalar and no second `${{` occurs; interpolated otherwise |
| ScalarMeaning.AuthoredScalarMeaning | crates/pointlock-compiler/src/normalize.rs:727-750 | end to end, for every well-formed template whose islands parse: a whole scalar means its island, or is an error if text follows that island; an interpolated one parses to its pieces and evaluates to their splice, or has no room for the call |
| ScalarSplits.OneIslandMeans | crates/pointlock-compiler/src/normalize.rs:646-654 | a scalar with one `${{` whose island parses, whatever that island holds, is never silently wrong: it means the island, or the splice of it between the texts around it, or is an error, the last exactly if an interpolated island holds a `}}`, text follows the island of a whole scalar, or the nesting has no room |
| ScalarSplits.OneCutIslandFails | crates/pointlock-compiler/src/normalize.rs:646-654 | for any number of parsing islands, of which exactly one holds a `}}` and that one no `${{`, the desugared text never parses |
| ScalarSplits.TwoIslandsEmbedded | crates/pointlock-compiler/src/normalize.rs:636-645 | a scalar with two or more islands, whatever they hold, is an interpolated one |
| ScalarSplits.OpenIslandFails | crates/pointlock-compiler/src/normalize.rs:646-654 | whatever the parts, a split that leaves a string literal open at the end of an island never parses, if the islands after it parse |
| ExprQuotes.ParsedIsClosed | crates/pointlock-compiler/src/expr_text.rs:94-211 | every expression text that parses leaves no string literal open and holds no brace, dollar sign or backslash outside of one |
| ExprQuotes.OpenStaysOpen | crates/pointlock-compiler/src/expr_text.rs:184-211 | text that closes all it opens cannot close a literal it is read from the inside of |
| ScalarSplits.MisSplitCanBeSilent | crates/pointlock-compiler/src/normalize.rs:646-654 | the comment that a `}}` in an island literal always fails to parse is false: a concrete scalar that is classified as interpolated desugars to text that parses and evaluates to another string |
| Evaluator.TraversePath | crates/pointlock-expr/src/scope.rs:184-207 | the loop over path segments is the recursive walk, with the same two errors |
| ExprMeaning.TraverseMeans | crates/pointlock-expr/src/scope.rs:184-207 | traversal ends at the value the members lead to, at the first object without the member, or at the first value that is no object |
| ExprMeaning.PlainRefMeans | crates/pointlock-expr/src/scope.rs:101-121 | a `params`, `env`, `vars` or `iter` path is the binding of its first name, traversed by the rest |
| ExprMeaning.StepRefMeans | crates/pointlock-expr/src/scope.rs:122-168 | a `steps` path is the verdict, the output, or what the rest leads to in the output, with each absence its own error |
| ExprMeaning.ArityMeans | crates/pointlock-expr/src/eval.rs:22-56 | a literal is its value, and a call with another count of arguments than its function takes evaluates none of them |
| ExprMeaning.ComparisonMeans | crates/pointlock-expr/src/eval.rs:63-70 | `eq` and `ne` are opposite answers to the comparison of both values, the first error coming first |
| ExprMeaning.NotMeans | crates/pointlock-expr/src/eval.rs:73-76 | `not` turns a boolean round and takes nothing else |
| ExprMeaning.LenMeans | crates/pointlock-expr/src/eval.rs:109-118 | `len` counts the characters of a string or the elements of an array and takes nothing else |
| ExprMeaning.JunctionMeans | crates/pointlock-expr/src/eval.rs:81-96 | `and` and `or` stop at the first operand that decides or is no boolean, and evaluate nothing after it |
| ExprMeaning.ConcatMeans | crates/pointlock-expr/src/eval.rs:99-105 | `concat` is the strings of its arguments in order, or the first failure |
| ExprMeaning.CoalesceMeans | crates/pointlock-expr/src/eval.rs:135-150 | `coalesce` is its first argument that is not absent, its error included, and null if there is none |
| ExprMeaning.JsonPathMeans | crates/pointlock-expr/src/eval.rs:158-182 | `jsonPath` wants a literal query, checked before the value: no node is null, one is itself, more are an array |
| ExprMeaning.RegexMeans | crates/pointlock-expr/src/eval.rs:184-230 | `regexMatch` with literals: bad flags, then a bad pattern, then the subject, then the search |
| ExprMeaning.EqualIsIdentical | crates/pointlock-expr/src/eval.rs:276-305 | on values without floats equality is identity |
| ExprMeaning.FloatsAsDoubles | crates/pointlock-expr/src/eval.rs:294-305 | numbers of which one is a float are compared as doubles |
| JsonEquality.JsonEqReflexive | crates/pointlock-expr/src/eval.rs:276-305 | every value equals itself, for any double conversion |
| JsonEquality.JsonEqSymmetric | crates/pointlock-expr/src/eval.rs:276-305 | equality is symmetric although objects are compared from one side only |
| JsonEquality.JsonEqTransitive | crates/pointlock-expr/src/eval.rs:276-305 | if a equals b and b equals c, a equals c if and only if no two different integers meet through a double at one place of the values |
| JsonEquality.IntegersCompareExactly | crates/pointlock-expr/src/eval.rs:290-305 | two integers of any size and sign are equal if and only if their values are |
| JsonEquality.RoundingBreaksTransitivity | crates/pointlock-expr/src/eval.rs:290-305 | any two different integers that round to one double, and that double, are such a case |
| ExprSoundness.RefCheckExact | crates/pointlock-expr/src/check.rs:182-226 | the static reference check is silent if and only if the first name resolves; a grammatical path never has an unknown root |
| ExprMeaning.CheckExactly | crates/pointlock-expr/src/check.rs:149-285 | the checks are silent if and only if every call has its count of arguments and fitting literals and every reference a declared name, nested ones included |
| ExprMeaning.InferExactly | crates/pointlock-expr/src/check.rs:63-147 | a call has no type finding if and only if its arguments have none and the known ones are of the types the function takes; its type is what the function gives |
| ExprSoundness.CheckedDoNotGoWrong | crates/pointlock-expr/src/check.rs:28-32 | a clean check excludes unknown and missing roots, wrong arity, missing literals, bad queries and bad flags, and bad patterns too if every flagged pattern compiles under its own flags |
| ExprSoundness.FlaggedCallExact | crates/pointlock-expr/src/eval.rs:184-206 | a call with flags reports its pattern if and only if the pattern does not compile under them or the subject reported it already |
| ExprSoundness.CheckMissesFlags | crates/pointlock-expr/src/check.rs:258-266 | any pattern that compiles, but not under its flags, passes the check and fails |
| ExprSoundness.FlagsMatter | crates/pointlock-expr/src/check.rs:258-266 | such a pattern, `(a#)` under `x`, with a host that reads it so |
| ExprSoundness.TypePreservation | crates/pointlock-expr/src/check.rs:63-147 | if every typed reference resolves at its type, the value of an expression has its inferred type, short circuits and `coalesce` joins included |
| ExprSoundness.TypePreservationUnlessAbsent | crates/pointlock-expr/src/eval.rs:135-150 | when typed references may also be absent, a value has its inferred type if and only if the type is null or the expression is not a `coalesce` of absent references, nested ones included |
| ExprSoundness.AbsentCoalesceIsNull | crates/pointlock-expr/src/eval.rs:135-150 | a witness: two absent references of any declared type but null |
| ExprSoundness.CheckedExpressionsEvaluate | crates/pointlock-expr/src/eval.rs:38-128 | checked, fully typed expressions evaluate to a value of their type if every flagged pattern compiles under its own flags; otherwise only such a pattern may fail |
| Utf16Order.PrecedesIsStrictTotalOrder | crates/pointlock-ir/src/canonical.rs:90-96 | comparison by UTF-16 code units is a strict total order on strings, equal only on equal strings |
| Utf16Order.SupplementaryFirst | crates/pointlock-ir/src/canonical.rs:83-96 | it differs from code point order: supplementary characters come before U+E000 to U+FFFF (section 3.2.3 of RFC 8785) |
| Utf16Order.AscendingUnique | crates/pointlock-ir/src/canonical.rs:66-80 | a set of keys has one ascending arrangement, so the order members were inserted in does not matter |
| Canonical.CollectAndSort | crates/pointlock-ir/src/canonical.rs:66-80 | the collected and sorted key vector is that one arrangement, whichever order the map yields its keys in |
| Canonical.Writer.WriteValue | crates/pointlock-ir/src/canonical.rs:52-81 | the writer appends exactly the canonical text to its buffer |
| Canonical.ToCanonicalJson | crates/pointlock-ir/src/canonical.rs:46-50 | the whole serializer computes the canonical text |
| JsonReader.ReadCanon | crates/pointlock-ir/src/canonical.rs:46-104 | a reader of the JSON grammar of RFC 8259, defined apart from the serializer, reads the text of every value back as that value, and stops there whatever follows |
| JsonLayout.ObjectLayout | crates/pointlock-ir/src/canonical.rs:66-80 | an object is its members, each key once, in ascending UTF-16 order, with commas between |
| JsonLayout.CanonIsTight | crates/pointlock-ir/src/canonical.rs:52-81 | no white space stands outside of strings |
| JsonLayout.EscapesAreShortest | crates/pointlock-ir/src/canonical.rs:94-104 | of all spellings of a character without control characters the one written is the shortest, with lower-case digits |
| Canonical.Unambiguous | crates/pointlock-ir/src/canonical.rs:46-81 | inside any larger text, equal canonical output means equal values and equal remainders |
| Canonical.CanonInjective | crates/pointlock-ir/src/canonical.rs:46-81 | equal canonical JSON means equal values |
| EditDistance.ComputeDistance | crates/pointlock-compiler/src/bind.rs:1712-1725 | the two-row loop computes the distance |
| EditDistance.DistanceIsMinimum | crates/pointlock-compiler/src/bind.rs:1712-1725 | the distance is reached by some insert, delete and substitute script and no script costs less |
| EditDistance.DistanceIsMetric | crates/pointlock-compiler/src/bind.rs:1712-1725 | zero only on equal names, symmetric, triangle inequality |
| EditDistance.NearestNames | crates/pointlock-compiler/src/bind.rs:1711-1738 | the suggested names, with their distances, are the least candidates within distance two by distance then name, in order, three at most |
| ChainOrder.ValidateChainOrder | crates/pointlock-compiler/src/bind.rs:1178-1220 | the loop accepts a channel chain if and only if it is an ordered subsequence of the canonical order |
| ChainOrder.SubsequenceIsIncreasing | crates/pointlock-compiler/src/bind.rs:1178-1220 | the channels of an accepted chain stand at strictly increasing places of the order |
| PlainScalars.IntegersAreExact | crates/pointlock-compiler/src/parse.rs:403-479 | every accepted spelling of an integer, with either sign, leading zeros, base ten, sixteen or eight, and digits of either case, reads as exactly that integer from -2^63 to 2^64-1; outside that range it is an error, never a float or a string |
| PlainScalars.EveryIntegerIsSpelled | crates/pointlock-compiler/src/parse.rs:403-479 | every integer has such a spelling in each base, with any number of zeros in front |
| PlainScalarMeaning.OthersAreExact | crates/pointlock-compiler/src/parse.rs:403-446 | every scalar that spells no integer is null, true or false if it is one of their words, an error if it names a number that is not finite or a decimal too large, a float if it is a decimal, and its own text otherwise |
| YamlBuilder.Builder.OnEvent | crates/pointlock-compiler/src/parse.rs:277-388 | one event changes stack, anchors, count and root as the transition function says, or fails with its error |
| YamlBuilder.Builder.PushNode | crates/pointlock-compiler/src/parse.rs:209-275 | a completed node goes to its parent or the root, with the key checks in the order of the code |
| YamlBuilder.ParseEvents | crates/pointlock-compiler/src/parse.rs:483-522 | the event loop and the final document checks compute the parse |
| YamlReading.ParseReads | crates/pointlock-compiler/src/parse.rs:158-388 | for every event stream the stack machine gives the document, or the error, of a recursive reading of the stream, which says what each node is, which node an alias names, what is charged and when a key is refused |
| YamlProofs.StepAccounting | crates/pointlock-compiler/src/parse.rs:174-184 | every event moves the node count by the change of what is held, plus one per entry of a mapping it closes |
| YamlProofs.NodeBudget | crates/pointlock-compiler/src/parse.rs:110-121 | after any accepted events the count is the size of what is held plus those extras, so an accepted expanded document has at most 65,536 nodes |
| YamlProofs.AcceptedIsWellKeyed | crates/pointlock-compiler/src/parse.rs:215-256 | no mapping of an accepted document repeats a key or holds `<<` |
| YamlProofs.FlattenReplays | crates/pointlock-compiler/src/parse.rs:277-388 | from any state, the events of a tree attach that tree if depth and budget allow it and hit a limit otherwise |
| YamlProofs.ReplayInvertsFlatten | crates/pointlock-compiler/src/parse.rs:277-388 | the events of a well-keyed tree parse, to that tree, if and only if its root is a mapping, its depth is at most 64 and its size with keys counted twice is at most 65,536 |
| YamlKeyCharge.KeysCountTwice | crates/pointlock-compiler/src/parse.rs:174-256 | a well-keyed tree within the depth limit, of 60,003 nodes, that is refused |
| YamlAliases.AliasesAreValueReuse | crates/pointlock-compiler/src/parse.rs:292-303 | a stream with aliases and the stream with each alias written out give the same document or the same error, unless the written-out stream meets a limit |
| FlowChecker.Checker.CheckStep | crates/pointlock-compiler/src/check.rs:674-932 | one step changes scope, iteration names and earlier steps as the walk function says, and records the same verdict |
| FlowChecker.Checker.CheckIf | crates/pointlock-compiler/src/check.rs:799-815 | both branches start from the scope before the step, and both products are in scope after it |
| FlowChecker.CheckFlow | crates/pointlock-compiler/src/check.rs:333-440 | the imperative check accepts exactly the accepted flows |
| FlowAcceptance.AcceptedExactly | crates/pointlock-compiler/src/check.rs:333-1368 | a flow is accepted if and only if its ids are distinct and every expression at every place, outputs and escalations included, has no type finding, only names in scope there, no field of an un-narrowed output and no step read too early, with no predicate known to be other than boolean, no variable bound twice and no iteration name shadowed |
| FlowAcceptance.AcceptedSitesEvaluate | crates/pointlock-compiler/src/check.rs:1223-1268 | so at every place of an accepted flow a fully typed expression evaluates to a value of its type if its flagged patterns compile |
| FlowIdSites.FlowIdsExactly | crates/pointlock-compiler/src/check.rs:449-533 | the ids compared are those of the steps and of the handlers that escalate, at any depth, and none is repeated if and only if no two places declare the same |
| FlowOrder.AcceptedReadsLookBack | crates/pointlock-compiler/src/check.rs:1300-1368 | every step or variable read outside deferred positions is defined earlier in document order and not in a sibling branch of an enclosing `if` |
| FlowOrder.AcceptedIsAcyclic | crates/pointlock-compiler/src/check.rs:662-672 | the step reference graph of an accepted flow has no cycle, a step's own output in its assertions aside |
| FlowOrder.AcceptedBindsOnce | crates/pointlock-compiler/src/check.rs:855-880 | two places that bind one variable are the same place or in exclusive branches |
| FlowOrder.AcceptedDoesNotShadow | crates/pointlock-compiler/src/check.rs:820-847 | no loop in an accepted flow rebinds the name of an enclosing one |
| FlowOrder.AcceptedIterReadsAreBound | crates/pointlock-compiler/src/check.rs:820-847 | every iteration name read outside deferred positions is bound by exactly one of the loops around the place |
| FlowChoices.BoundExactlyIfDefinite | crates/pointlock-compiler/src/check.rs:799-815 | a read is bound under every choice of branches that reaches it if and only if its key is definitely assigned before it: by an earlier step of its list or of a list around it, an `if` counting only with both branches |
| FlowChoices.AcceptedReadsCanBeBound | crates/pointlock-compiler/src/check.rs:1300-1368 | every read of an accepted flow is bound under some choice of branches that reaches it |
| FlowChoices.BranchBindingMayBeMissing | crates/pointlock-compiler/src/check.rs:799-815 | an accepted flow, and a choice under which a read after an `if` is reached and nothing has bound its variable |
| Normalizer.StepNormalizer.NormalizeStepNode | crates/pointlock-compiler/src/normalize.rs:1858-2190 | head dispatch restores the macro stack and yields the steps of the expansion function, or marks the run failed |
| Normalizer.StepNormalizer.ExpandMacro | crates/pointlock-compiler/src/normalize.rs:1680-1803 | expansion pushes and pops the macro stack, refuses recursion and a seventeenth level, and ends on every table |
| MacroElaboration.ListExact | crates/pointlock-compiler/src/normalize.rs:1680-2190 | a step list normalizes to given steps if and only if it becomes them by a relation on trees: in order, one deciding key a step, branches and loop bodies in their places, and each call replaced by its filled and prefixed body one macro deeper |
| MacroElaboration.BoundExact | crates/pointlock-compiler/src/normalize.rs:1712-1768 | a call binds if and only if it names exactly the parameters, each to the value written for it |
| Normalizer.StepNormalizer.SubstituteNode | crates/pointlock-compiler/src/normalize.rs:1528-1620 | the loops of the substitution build the substituted tree, or report |
| MacroSubstitution.SubstituteExact | crates/pointlock-compiler/src/normalize.rs:1528-1620 | substitution yields a tree if and only if it is the body with every `${{ macro.p }}` scalar replaced by the argument of `p`, every scalar that does not speak of `macro.` unchanged, and keys, order and lengths kept |
| MacroSubstitution.SubstituteFailsExactly | crates/pointlock-compiler/src/normalize.rs:1528-1620 | it fails if and only if some scalar, however deep, speaks of `macro.` without being one whole bound parameter |
| Normalizer.StepNormalizer.PrefixStepIds | crates/pointlock-compiler/src/normalize.rs:1623-1675 | the loops of the prefixing rewrite exactly the declared ids, or report |
| MacroSubstitution.PrefixExact | crates/pointlock-compiler/src/normalize.rs:1623-1675 | prefixing yields a tree if and only if it is the step with just its declared ids, all of them author segments, put below the call |
| StepNodeIds.PrefixedIds | crates/pointlock-compiler/src/normalize.rs:1623-1675 | a prefixed node declares exactly the call-prefixed ids, all of them author segments before |
| StepNodeIds.SubstituteKeepsIds | crates/pointlock-compiler/src/normalize.rs:1528-1620 | scalar arguments leave all declared ids as they are |
| MacroHygiene.ListHygiene | crates/pointlock-compiler/src/normalize.rs:1680-1803 | from ids that are apart, normalization yields distinct ids, each at or below one of them, at every expansion depth |
| MacroOrigins.ExpansionIsHygienic | crates/pointlock-compiler/src/normalize.rs:1528-1803 | for distinct author ids and tidy bodies, all normalized ids are distinct, each has one segment more than its step was expanded, and no reference can name an expanded step |
| MacroOrigins.SynthesizedIsOutOfReach | crates/pointlock-ir/src/primitives.rs:402-464 | no grammatical reference path names an id of more than one segment |
| MacroOrigins.TracedIdsAreOk | crates/pointlock-compiler/src/check.rs:483-510 | expanded ids pass the id check exactly when they are at most 256 characters |
| MacroOrigins.CallIdsAreUnchecked | crates/pointlock-compiler/src/check.rs:488-505 | whatever a macro call expands to has the segments of the call's id beyond its expansions, however many those are, and passes the id check up to 256 characters |
| MacroOrigins.AuthorIdExact | crates/pointlock-compiler/src/check.rs:483-510 | a step that is not expanded passes the id check if and only if its id is one valid segment of at most 256 characters; only expanded steps may have more segments |
| MacroOrigins.AnyCallIdGoesThrough | crates/pointlock-compiler/src/check.rs:483-510 | wherever the shape check takes a one-step macro body, here a `let`, a call of it is accepted whatever its id; if that id has several segments, as `a:b` has, the expanded step passes where an author step of that id would not |
| MacroOrigins.SchemaBesideCallIsDropped | crates/pointlock-compiler/src/normalize.rs:2126-2190 | `expect_schema` beside a macro call changes neither acceptance nor the result |
| MacroOrigins.SchemaBesideCallIsAccepted | crates/pointlock-compiler/src/normalize.rs:2126-2190 | wherever the shape check takes the call, its schema and the macro body, a call with a schema mapping beside it expands |
| MacroGrowth.ChainDoubles | crates/pointlock-compiler/src/normalize.rs:1680-1803 | in a chain of macros with two calls each, level k expands to 2^k steps, at every stack with room for k more levels: 32,768 at most |
| MacroReferences.ReferencedStepTokens | crates/pointlock-compiler/src/normalize.rs:1248-1263 | the scan loop collects every word after a `steps.` |
| MacroReferences.ScanFindsEveryReference | crates/pointlock-compiler/src/normalize.rs:1494-1523 | whatever expression is parsed from any part of a scalar, every step it refers to is among the scanned words |
| MacroScan.BodyScanner.CollectStepIds | crates/pointlock-compiler/src/normalize.rs:1267-1299 | the collection adds exactly the declared ids of all nesting levels |
| MacroScan.BodyScanner.CheckBody | crates/pointlock-compiler/src/normalize.rs:1476-1486 | checking a body reports exactly the offending words, in order, against that body's own ids |
| MacroScan.ItemFindingsExact | crates/pointlock-compiler/src/normalize.rs:1494-1523 | nothing is reported if and only if no string scalar with `${{`, however deep, has a scanned word among the ids |
| MacroScan.TakenReferencesAreScanned | crates/pointlock-compiler/src/normalize.rs:727-750 | whatever expression is taken from a scalar, whole or desugared, every step it refers to is among the scanned words of that scalar |
| MacroScan.AcceptedBodyHasNoOwnReference | crates/pointlock-compiler/src/normalize.rs:1476-1523 | end to end: in an accepted macro body no expression taken from any scalar, however deep, refers to a step of that body |
| SubflowLinker.Linker.Link | crates/pointlock-compiler/src/subflow.rs:109-256 | linking one reference changes stack, cache, registry and artifacts as the transition function says, on every file graph |
| SubflowLinker.Linker.Compile | crates/pointlock-compiler/src/lib.rs:127-137 | one compile links every reference, failures included, then seals |
| SubflowLinker.CompileClosure | crates/pointlock-compiler/src/lib.rs:101-122 | the top-level compile yields the root and its compiled callees |
| LinkContent.RootContent | crates/pointlock-compiler/src/seal.rs:109-154 | a compiled root has the flow id and fields that checking makes of its own source and of the records of the files it refers to, one pin for each of those, just the features required, its source map and its hash |
| LinkContent.CachedContent | crates/pointlock-compiler/src/subflow.rs:206-254 | so has the artifact of every cached path, and its record holds that id, hash, features and `params` |
| LinkContent.StoredContent | crates/pointlock-compiler/src/subflow.rs:235-236 | with a collision-free digest the stored artifact is that one |
| LinkContent.StoredIsSourced | crates/pointlock-compiler/src/subflow.rs:206-254 | nothing else is stored: every artifact is that of some cached file under the name it was reached by |
| LinkFailures.FailureHasCause | crates/pointlock-compiler/src/subflow.rs:109-233 | a compile that fails has a cause somewhere down its references: a file that is missing, on the stack, out of depth or does not parse, a flow that cannot be checked or bound from its callees, or an id registered with another hash |
| Linking.LinkKeepsValid | crates/pointlock-compiler/src/subflow.rs:109-256 | every link, successful or not, keeps the invariant, takes nothing back, and a success is what the cache holds for the target |
| LinkStates.AdmitKeepsValid | crates/pointlock-compiler/src/subflow.rs:206-254 | admitting a compiled flow keeps stack, cache order, one hash per flow id, and artifacts closed under pins |
| LinkClosure.ClosureIsAcyclic | crates/pointlock-compiler/src/subflow.rs:135-153 | along any chain of calls the flows are strictly older in the cache: no flow repeats and the chain is no longer than the cache |
| LinkClosure.OneHashPerFlow | crates/pointlock-compiler/src/subflow.rs:206-230 | cached flows with one flow id have one hash |
| LinkClosure.CachedIsRecompiled | crates/pointlock-compiler/src/subflow.rs:148-153 | a path has the same record in any two linker states of one file system, if for every file its calls lead to, where the references go does not depend on the file's name |
| LinkLimits.CacheIgnoresName | crates/pointlock-compiler/src/subflow.rs:109-153 | without that condition the record of a file depends on the name it was first reached by, on a concrete file system |
| LinkDepth.EveryFlowIsNear | crates/pointlock-compiler/src/subflow.rs:135-166 | after every successful compile each linked flow is reached from the root by some chain of at most eight calls, the stack it was compiled under |
| LinkDepth.DepthBoundExact | crates/pointlock-compiler/src/subflow.rs:148-166 | for every file system and accepted root, all call chains are within the limit if and only if no cache hit found a flow too high for its place |
| LinkDepth.OneCallerBoundsDepth | crates/pointlock-compiler/src/subflow.rs:148-166 | if no linked flow is called from two places, every call chain is within the limit |
| LinkLimits.DepthBoundIsOnTheStack | crates/pointlock-compiler/src/subflow.rs:155-166 | a witness: one chain alone links up to eight edges, but at any length after its shorter tails |
| LinkClosure.RootKeepsRegistry | crates/pointlock-compiler/src/subflow.rs:206-230 | a compiled closure, root included, has one hash per flow id if and only if every linked flow of the root's id has the root's hash; so it has if no callee declares the root's id |
| LinkRoot.RootIdIsItsOwn | crates/pointlock-compiler/src/subflow.rs:206-230 | with a collision-free digest, a compiled closure, root included, has one hash per flow id if and only if no linked flow declares the root's id |
| LinkLimits.RootEscapesRegistry | crates/pointlock-compiler/src/subflow.rs:206-230 | a witness: a root carries the flow id of its own callee with another hash |
| LinkClosure.RootIsSealed | crates/pointlock-compiler/src/seal.rs:109-154 | a compiled root stores the hash of its content, pins only compiled artifacts, and requires what the flows it refers to require |
| LinkClosure.LinkerMakesArtifacts | crates/pointlock-compiler/src/subflow.rs:235-236 | every compiled artifact is stored under its recomputed hash and pins only stored artifacts |
| LinkClosure.RootHashFixesClosure | crates/pointlock-ir/src/hash.rs:205-222 | with a collision-free digest, two closures with equal root hash agree, at every callee reachable through pins, on everything but the source map |
| FeatureSets.CollectFeatures | crates/pointlock-compiler/src/bind.rs:307-336 | the feature collection computes the required set, or fails when a feature is unavailable |
| FeatureSets.FeatureClosure | crates/pointlock-compiler/src/bind.rs:1412-1433 | the required set is exactly the verdict record, the own needs, the callees' features and, with the semantic actions, the snapshot; binding fails exactly if the verdict record, an own need or a snapshot to be bundled is unavailable |
| FeatureSets.FeaturesStayAvailable | crates/pointlock-compiler/src/bind.rs:407-417 | the required set holds every callee's features, and is available if they are |
| LinkClosure.FeaturesCloseOverCalls | crates/pointlock-compiler/src/bind.rs:407-417 | a flow requires what every flow it reaches requires, all within the available set |
| StepHashes.DomainHashInjective | crates/pointlock-ir/src/hash.rs:98-106 | equal domain hashes mean equal tag and equal subtree |
| StepHashes.StepDomainSubtree | crates/pointlock-ir/src/hash.rs:149-163 | moving the named fields out one by one gives exactly the projection, absent fields staying absent |
| StepHashes.HashesAreExact | crates/pointlock-ir/src/hash.rs:165-203 | two steps share an effect (judge) hash if and only if kind and effect (judge) domain agree, and no effect hash is a judge hash |
| StepHashFields.EffectFieldsExactly | crates/pointlock-ir/src/hash.rs:109-136 | effect hashes are equal if and only if the kinds are and the fields named for that kind are |
| StepHashFields.JudgeFieldsExactly | crates/pointlock-ir/src/hash.rs:138-145 | judge hashes are equal if and only if the kinds are and the fields named for that kind are |
| StepHashFields.HashedText | crates/pointlock-ir/src/hash.rs:82-106 | what is digested is the tag of the domain and kind, a line break, and the canonical text of just those fields |
| StepHashes.DomainsAreDisjoint | crates/pointlock-ir/src/hash.rs:109-145 | for all seven kinds the two field tables are disjoint |
| StepHashes.HashesIgnoreOthers | crates/pointlock-ir/src/hash.rs:109-163 | changing a field outside a domain leaves its hash alone |
| StepHashes.ContainersIgnoreSubtrees | crates/pointlock-ir/src/hash.rs:109-145 | branches and loop bodies are in no domain of their container |
| StepHashes.OnlyPreflightDiffers | crates/pointlock-ir/src/hash.rs:177-203 | steps of one kind that agree on the judge domain without probes have equal judge hashes if and only if their probes agree |
| StepHashes.IrHashExact | crates/pointlock-ir/src/hash.rs:205-222 | two flows share the whole-tree hash if and only if they agree on everything but the hash field and the source map |
| StepHashFields.FlowHashedText | crates/pointlock-ir/src/hash.rs:77-106 | the whole-tree hash digests its tag, a line break, and the canonical text of the flow id, the ascending features, the pins and all other fields |
| LedgerFolds.PendingRequests | crates/pointlock-human-cli/src/lib.rs:63-104 | the push and retain loop computes the pending requests |
| LedgerFolds.ReportHumans | crates/pointlock-cli/src/report.rs:206-274 | the report loop computes the human lines |
| LedgerLines.LinesTell | crates/pointlock-cli/src/report.rs:206-274 | with distinct request ids, a line tells its request and time, the last response up to the first final one with its actor and time, and is marked settled if and only if its step was left before any response |
| LedgerFolds.FoldsAgreeExactly | crates/pointlock-cli/src/report.rs:238-274 | with distinct request ids, the pending requests are, in order, those of the open lines if and only if every request some response closes by the response's purpose is also closed by the request's purpose, and the other way round |
| LedgerFolds.FoldsAgree | crates/pointlock-cli/src/report.rs:238-274 | with distinct request ids and matching purposes, the pending requests are, in order, those of the open lines |
| LedgerFolds.FinalAnswersStay | crates/pointlock-cli/src/report.rs:254-274 | lines keep their place and request, and a final answer is never overwritten, for every log |
| LedgerFolds.SettledStaysPending | crates/pointlock-cli/src/report.rs:225-236 | the exit of a step settles its unanswered line and leaves its request pending |
| LedgerFolds.FoldsMayDisagree | crates/pointlock-human-cli/src/lib.rs:87-99 | witnesses: a response of another purpose, and a repeated id, each make the folds differ |
| LedgerFolds.AnswerSettles | crates/pointlock-human-cli/src/lib.rs:185-246 | an accepted answer settles exactly its own request, except that a supervision `suspend` leaves all pending |
| LedgerFolds.AnswersExactly | crates/pointlock-human-cli/src/lib.rs:185-246 | an answer is accepted, and recorded as that decision, status or input, if and only if the request allows it |

## Left out

- ExprCursor.ParseText: errors are their classes; messages, names in them aside, and byte offsets are dropped, and positions count characters.
- Utf16Order.AscendingUnique: the library sort is modelled as insertion; only its result is used.
- EditDistance.NearestNames: equal (distance, name) pairs are interchangeable, as after an unstable sort.
- YamlProofs.NodeBudget: the byte limit and the tokenizer are not part of this model; events are the input.
- YamlAliases.AliasesAreValueReuse: a limit of the written-out stream is excluded, because writing an alias out is charged more and checked for depth.
- PlainScalars.IntegersAreExact: how a decimal text becomes a double is a parameter.
- FlowChecker.CheckFlow: spans, diagnostic texts, warnings, human and selector checks, call contracts and schema narrowing beyond output references are dropped; loop bodies are walked once, an absent `else` is an empty one.
- Normalizer.StepNormalizer.NormalizeStepNode: the shape of keys that carry no steps is one parameter, preflight merging into the first expanded step is dropped, origin frames are macro names, listed outermost first.
- Normalizer.StepNormalizer.PrefixStepIds: builds the rewritten tree instead of writing into the old one; nothing else holds the old tree.
- MacroHygiene.ListHygiene: scalar arguments are assumed; a step list passed as an argument can repeat an id, which the uniqueness check then refuses.
- MacroOrigins.ExpansionIsHygienic: ids of handler escalations are not counted; they are in the uniqueness check of `FlowSteps`.
- SubflowLinker.Linker.Link: which of its diagnostics a failed link records is not modelled, only that it fails and what it leaves behind.
- LinkFailures.FailureHasCause: one way only; a file out of depth by one way may be linked by another.
- LinkClosure.CachedIsRecompiled: one way only; with a file reached under two names the records may still happen to agree.
- LinkClosure.RootHashFixesClosure: the artifact body is a map of wire fields, so that its inner layout is opaque.
- FeatureSets.CollectFeatures: which attempt or channel needs a feature is a parameter; manifest and lockfile lookups are dropped.
- LedgerFolds.ReportHumans: only the human lines of the report; verdict, handler and segment folds are independent counters.
- Step normalization of selectors, retry, human and handler blocks, JSON Schema validation and the schema generators are not part of this model: many branches, none hard.
- Runner, store, provider kit, command line, serving and webhooks are not part of this model.
