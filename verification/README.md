# Fuse compiler: a verified model

Fuse is a small compiler: source text becomes tokens, then a syntax tree, a typed
high-level form (HIR), constant values, a control-flow graph (MIR) and finally C.
This project models the passes of that pipeline whose correctness is an argument
about whole runs, together with the package resolver, the pass manifest, the
formatter and the editor's position arithmetic, and proves what they are for.
`dafny verify dfyconfig.toml` checks everything.

The code that updates state in place is modelled by classes and loops whose
contracts tie them to a function of the old state; the theorems are about those
functions.

| part | files | main results |
|---|---|---|
| lowering HIR to MIR | `Mir`, `Hir`, `Lowering`, `Discipline`, `Simulation`, `Acceptance`, `LoweringTheorems`, `Differences`, `Lowerable`, `Emitted`, `Lowerer`, `Exhaustive` | which functions are accepted, from the source alone; accepted code runs like the source, and exactly when it does not; `Validate` rejects a function exactly when a branch leaves from the wrong block |
| constants | `Integers`, `Literals`, `Constants`, `ConstantOperators`, `ConstantControl`, `ConstantMeaning`, `ConstantValues`, `Evaluator`, `Substitution`, `Replaced`, `Layouts`, `LeastLayouts` | the memoising, bounded evaluator refines plain evaluation, in both directions; operators on numbers; substitution keeps meaning and leaves no constant behind; layouts are the least possible |
| parsing | `Syntax`, `Grammar`, `ParserTheorems`, `Precedence`, `Parser` | parsing and flattening are inverse; the grammar is unambiguous; the ladder of operators; the error-recovering parser reports nothing exactly when the grammar parses |
| scanning | `Utf8`, `Lexing`, `TokenShapes`, `Rescanning`, `Scanner` | re-scan stability; positions; the longest operator is taken; exactly when a line comment ends with its line |
| packages | `Versions`, `Resolution`, `RootOrder`, `JointRoots`, `Resolver` | a resolution is consistent, reachable, acyclic and the best for its demands; errors are genuine; exactly when the order of the roots has no influence |
| passes | `PassGraph`, `PassManifest`, `IncrementalPlan` | the least topological order; incremental equals full rebuild |
| ownership | `Moves`, `MoveEvents`, `MoveChecker` | no use after move on any path; the diagnostics are exactly the late reads |
| tools | `Formatter`, `FormatRules`, `Positions`, `Encodings` | idempotent formatting; UTF-16 position round trips |

## How it is modelled

**Lowering.** The language's reading of a body (`Eval` with `Language`) is a
big-step semantics over 64-bit registers with early return, traps and a history of
calls; the machine is a small-step one. Lowering is a function on states of the
builder (`Lowering`), the class `Lowerer.Builder` is proved to compute it, and
`Plan` says from the source alone whether every `?`, `?.` and `match` branches from
the block allocated last. The simulation needs no restriction on the body beyond
acceptance when the body is read as the lowerer reads it (`Lowered`); the two
readings agree on `InFragment` bodies. Outside the fragment `Differences` says exactly
when an accepted function still does what the language says: the two readings must end
the function alike (`FollowsIff`), and for `!=`, `?` in an inlined closure, arms that
`return`, guards and names bound by patterns that is worked out as a condition on the
parts, with an accepted input on which it fails (`ClosureTryEscapes`,
`ReturnArmsFallThrough`, `ReturnsAreDropped`, `GuardsAreIgnored`,
`BindPatternsDoNotBind`). "Reads alike" means that the two readings of a part agree, as
they do throughout the fragment. Enums must have distinct names, since the lowerer finds
a variant by name.

**Constants.** The reference evaluates without a memo table and carries two counters,
one for the nesting of constants and calls and one for loop turns. With the
evaluator's own limits in them it is the bounded uncached evaluator; an outcome that
holds from some counter on is the unbounded one. No expression assigns to a variable
(the evaluator has no case for assignment, although its comment on statements
mentions it), so a scope is a map; and a loop that ends at all ends in its first turn. What is said of
canonical integers, and so of substitution, assumes of types that a path evaluated to
an enum variant has the enum's type.

Two things are false of the code, with their exact conditions: a range pattern compares
words, so it holds the right numbers exactly when the type is unsigned or both bounds
have the same sign (`RangePatternIff`); and type suffixes are cut before the base is
looked at, so a hexadecimal literal is read as written exactly when it does not end in
what looks like a float suffix (`HexadecimalReadIff`: 0xf32 is refused).

**Parsing.** A tree records whether a list ended in a comma, which the compiler's own
tree forgets, so flattening is exact. Where the compiler keeps `nil`, the tree has
`Missing`.

**Scanning.** Sources are bytes and runes are decoded as Go does. Which non-ASCII
runes are letters or digits, and the table of reserved words, are parameters. The
language reference lets lines end in CRLF and line comments run to the end of the line;
the scanner takes CRLF in one step and looks for an LF, so a line comment that ends in
CRLF takes the next line along (`LineCommentIff`, `NextLineIsSkipped`).

**Packages.** Map iteration order is a parameter; every statement holds for all of
them. Independence of it is false of the code: `RootOrderMatters` gives a manifest that
resolves or not, `TwoResolutions` one that resolves to different versions. It holds
exactly when each root, walked alone, resolves, no two of these resolutions differ on a
package, and together they are consistent (`OneResolutionIff`); once one order has
resolved, when each root alone resolves to a part of it (`OrderIsIrrelevantIff`). That
is so where the latest releases meet each other's demands (`OrderIsIrrelevant`), but
not only there (`PinnedRoot`).

Where the code and its comments disagree, the code is followed: the formatter's
comment keeps two blank lines of a longer run but the code keeps one; the move
checker's comment moves call arguments but the code does not; a struct without fields
has size 0 although a comment speaks of one byte; the resolver's comment speaks of a
sorted iteration that the code does not do; the substituter's comment names integers and
booleans only but the code replaces characters too.

## Model

| member | source | states |
|---|---|---|
| `Mir.Validate` | compiler/mir/mir.go:458-559 | Accepts exactly the functions in which every block ends, no branch target is zero and every register that is read is written by an instruction before it in the order in which blocks and instructions are listed |
| `Mir.FinalUnique` | compiler/mir/mir.go:170-200 | A run has at most one final configuration |
| `Discipline.DisciplineExpr` | compiler/lower/lower.go:141-355 | After lowering any expression the builder is either disciplined as the plan says or has left a block behind that nothing terminates later |
| `Discipline.DisciplineMatch` | compiler/lower/lower.go:363-464 | The same for the block arithmetic of `match` |
| `Simulation.SimExpr` | compiler/lower/lower.go:141-355 | From the end of the code before an expression to the end of its code the machine does what the expression does: value in the result register, early return or trap, same calls, older registers kept |
| `Simulation.SimMatch` | compiler/lower/lower.go:363-464 | The same for `match`: scrutinee, comparison chain, selected arm, merge |
| `Simulation.SimPropagate` | compiler/lower/lower.go:681-718 | The branch of `?` returns the error value or goes on |
| `Simulation.SimInequality` | compiler/lower/w15_forms.go:112-141 | `!=` is one minus `==`, through a call for types that are not scalar |
| `Acceptance.CheckedExpr` | compiler/mir/mir.go:458-559 | Disciplined code passes every check of `Validate` |
| `LoweringTheorems.AcceptedIff` | compiler/lower/lower.go:59-95 | Lowering fails closed: code that lowers without a diagnostic is accepted by `Validate` if and only if every branch left from the block allocated last |
| `LoweringTheorems.AcceptedRuns` | compiler/lower/lower.go:59-95 | Accepted code always halts, with the outcome of the lowered reading, for every world and all arguments; it never reads an unwritten register |
| `LoweringTheorems.LoweringPreservesMeaning` | compiler/lower/lower.go:59-464 | For accepted bodies in the fragment the machine ends exactly as the language says, with the same value, early return, trap and calls, and in no other way |
| `LoweringTheorems.Readings` | compiler/lower/lower.go:141-464 | In the fragment the language's reading and the lowerer's agree |
| `Differences.FollowsIff` | compiler/lower/lower.go:59-95 | For every accepted function, world and arguments, the code ends as the language says if and only if the two readings of the body end alike; the lowered reading is never stuck |
| `Differences.OperandFollowsIff` | compiler/lower/lower.go:141-200 | For `l op e` whose right operand ends alike under both readings but by a value in one and an early return in the other: exactly when the operator gives back its right operand |
| `Differences.InequalityReadingIff` | compiler/lower/w15_forms.go:112-141 | `!=` through an equality function is right exactly when that function returns zero or one |
| `Differences.InequalityFollowsIff` | compiler/lower/w15_forms.go:112-141 | The same for the code of an accepted function whose body is that comparison |
| `Differences.ClosureReadingIff` | compiler/lower/lower.go:643-675 | An inlined closure whose arguments and body read alike is read as the language reads it if and only if its body does not end early; if it does, the value is right and the function ends |
| `Differences.ClosureAtTopFollows` | compiler/lower/lower.go:643-675 | As the whole body of an accepted function it is followed all the same |
| `Differences.ClosureOperandIff` | compiler/lower/lower.go:643-675 | As a right operand it is followed if and only if its body does not end early or the operator gives that value back |
| `Differences.ClosureTryEscapes` | compiler/lower/lower.go:643-675 | An accepted inlined closure whose `?` leaves the enclosing function, so that the code does not follow |
| `Differences.LoweredChoice` | compiler/lower/lower.go:363-428 | The comparison chain selects the arm whose pattern matches first |
| `Differences.ReturnArmReadingIff` | compiler/lower/lower.go:491-515 | A chosen arm that is a lone `return e;` is read as the language reads it if and only if e has no value; the function ends alike in any case |
| `Differences.ReturnArmAtTopFollows` | compiler/lower/lower.go:491-515 | So as the whole body of an accepted function the match is followed |
| `Differences.ReturnArmOperandIff` | compiler/lower/lower.go:491-515 | As a right operand it is followed if and only if e has no value or the operator gives that value back |
| `Differences.ReturnArmsFallThrough` | compiler/lower/lower.go:491-515 | An accepted arm ending in `return` whose value goes on into the match, so that the code does not follow |
| `Differences.DroppedReturnReadingIff` | compiler/lower/lower.go:491-515 | An arm `return e; t`: the code evaluates t, the language returns e; they are read alike if and only if t does not have a value and does what returning e does |
| `Differences.DroppedReturnFollowsIff` | compiler/lower/lower.go:491-515 | As the whole body of an accepted function it is followed if and only if t ends the function as e does |
| `Differences.ReturnsAreDropped` | compiler/lower/lower.go:491-515 | An accepted arm whose `return` is dropped, so that the code does not follow |
| `Differences.GuardReadingIff` | compiler/lower/lower.go:429-457 | For any guard on the chosen arm: agreement if and only if the body does what it does after the guard's calls when the guard holds, what the later arms do when it does not, and what the guard itself does when it traps or leaves |
| `Differences.SilentGuardReadingIff` | compiler/lower/lower.go:429-457 | For a guard without calls: if and only if it holds or the later arms do what this arm's body does |
| `Differences.CallingGuardIff` | compiler/lower/lower.go:429-457 | Over a body without calls: never if the guard makes a call, otherwise as for a guard without calls |
| `Differences.SilentGuardFollowsIff` | compiler/lower/lower.go:429-457 | The code of an accepted match follows the language if and only if a guard without calls holds or the later arms end the function alike |
| `Differences.GuardFollowsIff` | compiler/lower/lower.go:429-457 | The same for any guard, by its three outcomes |
| `Differences.CallingGuardNeverFollows` | compiler/lower/lower.go:429-457 | A guard that makes a call over a body that makes none is never followed |
| `Differences.GuardsAreIgnored` | compiler/lower/lower.go:429-457 | An accepted match with a guard on which the code does not follow |
| `Differences.OnlyFree` | compiler/lower/lower.go:491-515 | The language's outcome depends only on the free names of an expression, those of guards included |
| `Differences.BindingReadingIff` | compiler/lower/lower.go:491-515 | The chosen arm is read as the language reads it if and only if its body has the same outcome with the pattern's names bound and without, so always when none of them is free in it |
| `Differences.BoundNameReadingIff` | compiler/lower/lower.go:491-515 | When the body is a bound name: if and only if the function has the scrutinee's value under that name |
| `Differences.BindingFollowsIff` | compiler/lower/lower.go:491-515 | The same as `BindingReadingIff` for the code of an accepted function |
| `Differences.BindPatternsDoNotBind` | compiler/lower/lower.go:491-515 | An accepted arm in which the name bound by the pattern is not bound, so that the code does not follow |
| `Lowerable.LowersIff` | compiler/lower/lower.go:141-355 | From any state of the builder an expression lowers without a diagnostic if and only if its literals are read, its names are in scope, its variants are declared, its operators are arithmetic or equality, its fields are named, `?` has an Err or None to propagate, and closures and arms have a value; a condition on the source alone |
| `Lowerable.MatchLowersIff` | compiler/lower/lower.go:363-464 | The same for `match`: there are arms, all but the last are decided by one comparison, the last by one or none, and every body lowers |
| `Lowerable.ArmsLowerIff` | compiler/lower/lower.go:429-515 | The same for the arms |
| `Lowerable.PatternIff` | compiler/lower/lower.go:520-634 | Which patterns are one comparison and which catch everything |
| `Lowerable.LookupIff` | compiler/lower/lower.go:751-785 | A variant is found exactly when some enum of that name, or of that type, declares it |
| `Lowerable.ErrorIndexIff` | compiler/lower/lower.go:724-749 | There is an error to propagate exactly when the first declaration of the enum has a variant Err or None |
| `Lowerable.AcceptedFnIff` | compiler/lower/lower.go:59-136 | A function is accepted if and only if it is not generic, its body is one `return e;`, e lowers in that sense and no branch in e leaves from the wrong block |
| `Emitted.LiteralEmits` | compiler/lower/lower.go:152-212 | A literal is one constant: true is 1, false is 0, a number itself; a name is its register and no code |
| `Emitted.VariantEmits` | compiler/lower/lower.go:751-766 | A variant is its place in the first enum of that name that declares it |
| `Emitted.ConstructorTests` | compiler/lower/lower.go:520-616 | A constructor pattern tests for its variant's place in its own enum, or in the scrutinee's where no type was recorded |
| `Emitted.ErrorPlace` | compiler/lower/lower.go:724-749 | `?` propagates the first variant called Err or None |
| `Emitted.BinaryEmits` | compiler/lower/w15_forms.go:112-160 | `==` is an instruction exactly for numbers, booleans and characters and a call of the type's equality function otherwise; `!=` subtracts it from one; arithmetic is one instruction |
| `Emitted.OperandsInOrder` | compiler/lower/lower.go:177-199 | The left operand is computed first and is the first register |
| `Emitted.ArgumentsInOrder` | compiler/lower/lower.go:226-295 | So are arguments |
| `Emitted.CNameIff` | compiler/lower/lower.go:789-797 | In one module two functions share a C name only if they are one function; `main` is kept and is no other function's name |
| `Emitted.CNamesAcrossModules` | compiler/lower/lower.go:789-797 | Across modules the names agree exactly when the qualified names do, joined by two underscores |
| `Emitted.TwoFunctionsOneName` | compiler/lower/lower.go:789-797 | Which happens to different functions: `b__c` of module `a` and `c` of module `a__b` |
| `Emitted.EqNameIff` | compiler/lower/w15_forms.go:88-173 | Two types share an equality function exactly when their names differ only in characters that are neither letters nor digits |
| `Emitted.SumsWrap` | compiler/codegen/c11.go:236-241 | In the machine sums, differences and products are exact up to multiples of two to the 64, and exact where they fit |
| `Emitted.DivisionTruncates` | compiler/codegen/c11.go:242-245 | Quotients are cut towards zero, remainders have the dividend's sign; undefined exactly for a zero divisor and for the least number over minus one |
| `Lowerer.Builder.BeginBlock` | compiler/mir/mir.go:316-323 | A new block at the end becomes current |
| `Lowerer.Builder.Seal` | compiler/mir/mir.go:360-425 | The current block gets its terminator and no block is current |
| `Lowerer.LowerExpr` | compiler/lower/lower.go:141-355 | The builder's state and the answer are those of the lowering function |
| `Lowerer.Propagate` | compiler/lower/lower.go:700-718 | The two blocks of `?`, found again by block number |
| `Lowerer.Dispatch` | compiler/lower/lower.go:370-428 | The arm, merge and comparison blocks of `match` |
| `Lowerer.LowerArms` | compiler/lower/lower.go:429-457 | Every arm in its own block, moved into the result register |
| `Lowerer.FinishArm` | compiler/lower/lower.go:439-485 | The move and the jump that end an arm |
| `Lowerer.LowerFn` | compiler/lower/lower.go:59-136 | Returns code exactly for accepted functions |
| `Exhaustive.CheckExhaustive` | compiler/check/match.go:55-78 | Reports exactly when the coverage condition fails |
| `Exhaustive.CheckBool` | compiler/check/match.go:80-112 | Both truth values are named by some arm or alternative |
| `Exhaustive.CheckEnum` | compiler/check/match.go:118-160 | Every variant of the declared enum is named |
| `Exhaustive.ExhaustiveIsSound` | compiler/check/match.go:55-187 | No diagnostic: every value of a Bool or unit-enum scrutinee matches some arm |
| `Exhaustive.CountsOrOverlooks` | compiler/check/match.go:80-187 | A pattern of the scrutinee's type matches exactly the values that the check counts for it and those it overlooks: below `x @ ...` and, for Bool, in or-patterns inside or-patterns |
| `Exhaustive.DiagnosticIff` | compiler/check/match.go:55-187 | A diagnostic on a Bool or declared enum is reported if and only if some value is counted for no arm |
| `Exhaustive.SpuriousIff` | compiler/check/match.go:55-187 | A diagnostic is spurious, every value having an arm, if and only if each value counted for no arm is overlooked in one |
| `Exhaustive.DiagnosticMeansGap` | compiler/check/match.go:55-187 | So without `x @ ...`, and for Bool without nested or-patterns, a diagnostic means that some value has no arm |
| `Exhaustive.AtWildcardIsReported` | compiler/check/match.go:172-187 | A lone `x @ _` is reported although every value has an arm |
| `Exhaustive.FallbackEdgeIsDead` | compiler/lower/lower.go:410-428 | After a passed check the comparison chain always enters an arm; the edge to the merge block is never taken |
| `Integers.MaskWraps` | compiler/consteval/value.go:225-230 | Masking a word is reduction modulo two to the width |
| `Integers.SignedIntIsNumber` | compiler/consteval/value.go:156-169 | The bit-level sign extension is the two's-complement reading |
| `Integers.OperatorsWrap` | compiler/consteval/eval.go:641-703 | Each arithmetic operator and shift is the exact one wrapped to the type, for all operands and shift counts; only a zero divisor has no result |
| `Integers.UnaryWraps` | compiler/consteval/eval.go:538-560 | Negation and complement, wrapped |
| `Integers.BitwiseOperators` | compiler/consteval/eval.go:674-679 | The bitwise operators work bit by bit and lose nothing to the mask |
| `Integers.CastIsModular` | compiler/consteval/eval.go:1057-1069 | A cast is the source's number modulo two to the target width |
| `Integers.CastKeeps` | compiler/consteval/eval.go:1057-1069 | A cast keeps the number if and only if it fits; widening and back is the identity |
| `Integers.ResultsCanonical` | compiler/consteval/eval.go:638-703 | Every integer result is below two to the width |
| `Literals.PrintThenRead` | compiler/consteval/eval.go:399-423 | Reading the decimal spelling of any 64-bit word gives the word |
| `Literals.TooLarge` | compiler/consteval/eval.go:399-423 | A decimal beyond 64 bits is refused |
| `Literals.NegativeRead` | compiler/consteval/eval.go:399-423 | A negative decimal is the two's-complement word, and refused below the least one |
| `Literals.UnderscoreIgnored` | compiler/consteval/eval.go:399-423 | An underscore anywhere makes no difference |
| `Literals.SuffixIgnored` | compiler/consteval/eval.go:399-423 | Nor does any of the twelve type suffixes after a decimal |
| `Literals.BinaryOctalRead` | compiler/consteval/eval.go:399-423 | Binary and octal spellings are read back |
| `Literals.HexadecimalReadIff` | compiler/consteval/eval.go:399-423 | A hexadecimal spelling is read back if and only if it does not end in f32 or f64 |
| `Literals.CharactersRead` | compiler/consteval/eval.go:425-455 | A character literal is its byte or what its escape stands for |
| `ConstantOperators.TypeTable` | compiler/consteval/value.go:156-230 | The width and signedness of every type, in figures |
| `ConstantOperators.IntegerComparisons` | compiler/consteval/eval.go:713-748 | The six comparisons of integers are those of the numbers they stand for, signed or not |
| `ConstantOperators.BooleanComparisons` | compiler/consteval/eval.go:713-785 | False comes before true |
| `ConstantOperators.CharacterComparisons` | compiler/consteval/eval.go:713-785 | Characters compare by code point |
| `ConstantOperators.ComparableIff` | compiler/consteval/eval.go:713-785 | Two values are compared exactly when both are integers, both booleans or both characters |
| `ConstantOperators.ArithmeticOperators` | compiler/consteval/eval.go:577-703 | `+ - * / %` and the shifts on numbers, wrapped; refused only for a zero divisor |
| `ConstantOperators.BitOperators` | compiler/consteval/eval.go:674-679 | And, or and exclusive or, bit by bit |
| `ConstantOperators.ArithmeticNeedsIntegers` | compiler/consteval/eval.go:577-640 | Operands of other kinds or of different types are refused |
| `ConstantOperators.UnaryOperators` | compiler/consteval/eval.go:533-575 | Negation and complement of numbers, and of truth values |
| `ConstantOperators.Casts` | compiler/consteval/eval.go:1033-1071 | Casts keep the number up to wrapping; true is one |
| `ConstantOperators.TuplesAndFields` | compiler/consteval/eval.go:1073-1132 | The i-th field of a tuple is its i-th element |
| `ConstantOperators.LogicalOperators` | compiler/consteval/eval.go:577-640 | And and or, the right operand only where the left does not decide |
| `ConstantOperators.RangePatternIff` | compiler/consteval/eval.go:1283-1302 | A range pattern holds exactly the numbers between its bounds if and only if the type is unsigned or the bounds have the same sign |
| `ConstantOperators.FoundVariantIs` | compiler/consteval/eval.go:471-531 | A variant's number is its place in the first enum of that name that has it |
| `ConstantOperators.ParamsBound` | compiler/consteval/eval.go:958-1027 | Every parameter is bound to its own argument |
| `ConstantOperators.PatternsBind` | compiler/consteval/eval.go:833-957 | A name binds the value and a tuple pattern binds part by part |
| `ConstantControl.IfChooses` | compiler/consteval/eval.go:787-813 | The condition decides which branch is evaluated |
| `ConstantControl.FirstArmWins` | compiler/consteval/eval.go:1167-1200 | The first arm that matches and whose guard is true gives the outcome, with its own bindings only; a diagnostic where there is none |
| `ConstantControl.LiteralPatterns` | compiler/consteval/eval.go:1202-1330 | A literal pattern matches its own value only |
| `ConstantControl.FirstAlternative` | compiler/consteval/eval.go:1202-1330 | The first alternative that matches decides |
| `ConstantControl.StatementsFlow` | compiler/consteval/eval.go:815-957 | What each statement does to what follows: bindings, dropped values, and leaving by `return`, `break` and `continue` |
| `ConstantControl.LocalsFirst` | compiler/consteval/eval.go:471-531 | Local names hide constants |
| `ConstantControl.CallGives` | compiler/consteval/eval.go:958-1027 | A call of a constant function is what its body is worth or returns, with nothing but the parameters in scope; nothing else is called |
| `ConstantMeaning.MonoExpr` | compiler/consteval/eval.go:313-356 | A run that settles gives the same outcome under larger bounds |
| `ConstantMeaning.MonoConst` | compiler/consteval/eval.go:202-229 | The same for a constant |
| `ConstantValues.GoodExpr` | compiler/consteval/eval.go:313-356 | Through every evaluation values are valid and integers canonical |
| `ConstantValues.ComputeGood` | compiler/consteval/eval.go:533-748 | Every operator keeps values valid and canonical |
| `Evaluator.Evaluator.EvalConst` | compiler/consteval/eval.go:202-229 | With or without a cached value: the unbounded value if nothing was reported, and the bounded uncached one whenever that exists |
| `Evaluator.Evaluator.EvalStatic` | compiler/consteval/eval.go:233-249 | The same for statics, which are not cached |
| `Evaluator.Evaluator.EvalExpr` | compiler/consteval/eval.go:313-356 | No diagnostic at all means the reference outcome from some counter on; a bounded uncached outcome means no diagnostic and that outcome |
| `Evaluator.Evaluator.EvalPath` | compiler/consteval/eval.go:471-510 | The same for paths: local, constant, static, variant, in that order |
| `Evaluator.Evaluator.EvalLogical` | compiler/consteval/eval.go:577-607 | The same for the short-circuit operators |
| `Evaluator.Evaluator.EvalIf` | compiler/consteval/eval.go:787-811 | The same for `if` |
| `Evaluator.Evaluator.EvalBlock` | compiler/consteval/eval.go:815-827 | The same for blocks and their scope |
| `Evaluator.Evaluator.EvalStmt` | compiler/consteval/eval.go:833-881 | The same for one statement and the bindings it leaves |
| `Evaluator.Evaluator.EvalCall` | compiler/consteval/eval.go:958-1027 | The same for calls of constant functions |
| `Evaluator.Evaluator.EvalArm` | compiler/consteval/eval.go:1172-1191 | The same for one match arm with its guard |
| `Evaluator.Evaluator.MatchPattern` | compiler/consteval/eval.go:1202-1310 | The same for trying a pattern |
| `Evaluator.Evaluator.EvalLoop` | compiler/consteval/eval.go:1334-1350 | The same for `loop` under the iteration bound |
| `Evaluator.Evaluator.EvalWhile` | compiler/consteval/eval.go:1353-1382 | The same for `while` |
| `Evaluator.Evaluate` | compiler/consteval/eval.go:130-162 | Without diagnostics every declared constant and initialised static has its uncached, unbounded value; if every one stays within the bounds uncached, there is no diagnostic |
| `Evaluator.OrderDoesNotMatter` | compiler/consteval/eval.go:130-162 | Two declaration orders that both succeed agree |
| `Evaluator.CyclicConstant` | compiler/consteval/eval.go:477-486 | No constant on a cycle of any length, each initialiser beginning with the next constant, settles under any bounds |
| `Evaluator.LoopEndsAtOnce` | compiler/consteval/eval.go:1334-1350 | A loop that ends, ends in its first turn, so the iteration bound stops only loops that never end |
| `Evaluator.WhileEndsAtOnce` | compiler/consteval/eval.go:1353-1382 | The same for `while` |
| `Substitution.LiteralKeepsIff` | compiler/consteval/substitute.go:229-251 | The literal of a canonical value reads back as the value exactly for booleans and for integers of the path's own type |
| `Substitution.SameExpr` | compiler/consteval/substitute.go:68-224 | Whatever an expression settles to in a program, its substituted form settles to in the program or its substituted form, and back, in every scope that shadows no replaced constant |
| `Substitution.SameConst` | compiler/consteval/substitute.go:68-92 | The same for a constant and its rewritten initialiser |
| `Substitution.SubstitutionKeepsMeaning` | compiler/consteval/substitute.go:32-224 | After a clean evaluation an expression and its substituted form have the same unbounded outcome, both in the program as it stands and with every initialiser and function body rewritten |
| `Substitution.SubstitutedConstants` | compiler/consteval/substitute.go:32-92 | Every constant of the rewritten program has the value it had |
| `Substitution.PathKeptIff` | compiler/consteval/substitute.go:131-150 | For one path the exact condition, shadowed or not |
| `Substitution.CharacterConstantChanges` | compiler/consteval/substitute.go:243-248 | A character constant comes back as an integer |
| `Replaced.PathBecomesLiteral` | compiler/consteval/substitute.go:129-152 | A path becomes a literal exactly when it names a constant or static whose value is an integer, boolean or character; the literal is of the path's type and reads back as that word or truth value |
| `Replaced.NothingLeft` | compiler/consteval/substitute.go:92-224 | Wherever such a path stood in an expression, none is left |
| `Replaced.ProgramCleaned` | compiler/consteval/substitute.go:32-92 | Nor in any initialiser or function body |
| `Replaced.CleanIsKept` | compiler/consteval/substitute.go:92-224 | Where there is none, nothing changes |
| `Replaced.SecondPassDoesNothing` | compiler/consteval/substitute.go:32-224 | So substituting twice is substituting once |
| `Layouts.AlignWordIsExact` | compiler/consteval/intrinsic.go:468-473 | The bit trick rounds up to the least multiple whenever that fits 64 bits |
| `Layouts.AlignDividesSize` | compiler/consteval/intrinsic.go:90-170 | The alignment is a power of two and divides the size |
| `Layouts.FieldsPlaced` | compiler/consteval/intrinsic.go:186-263 | Each field stands at the least aligned offset after the previous one and inside the whole |
| `Layouts.FieldsDisjoint` | compiler/consteval/intrinsic.go:232-263 | Fields do not overlap |
| `Layouts.EnumAlignIff` | compiler/consteval/intrinsic.go:268-312 | An enum has an alignment if and only if it has a size |
| `Layouts.PayloadsFit` | compiler/consteval/intrinsic.go:287-312 | Every payload fits after the tag at an offset aligned for it |
| `Layouts.MembersFit` | compiler/consteval/intrinsic.go:369-395 | Every union member fits |
| `Layouts.LayoutAlign` | compiler/consteval/intrinsic.go:136-170 | The loops compute the alignment, and report an error where the source does: for an enum also where a payload has no size |
| `Layouts.LayoutSize` | compiler/consteval/intrinsic.go:90-133 | In 64-bit words: an error exactly where there is no layout, and the exact size whenever it fits |
| `LeastLayouts.LaidOutIff` | compiler/consteval/intrinsic.go:90-170 | A type has a size exactly when no undeclared struct, unsized array or type without layout occurs in it outside what is not declared |
| `LeastLayouts.ScalarTable` | compiler/consteval/intrinsic.go:90-170 | The sizes and alignments of scalars |
| `LeastLayouts.ArrayGrows` | compiler/consteval/intrinsic.go:90-133 | Array elements stand one after another without gaps |
| `LeastLayouts.AggregateAlignIs` | compiler/consteval/intrinsic.go:214-282 | A struct, tuple or union is aligned as its most aligned part |
| `LeastLayouts.EnumAlignIs` | compiler/consteval/intrinsic.go:314-332 | An enum is aligned as its most aligned payload |
| `LeastLayouts.StructLeast` | compiler/consteval/intrinsic.go:189-261 | No placement of the fields in order that keeps every alignment fits a smaller multiple of the alignment |
| `LeastLayouts.UnionLeast` | compiler/consteval/intrinsic.go:371-395 | The size of a union is the least multiple of its alignment that holds every member |
| `LeastLayouts.EnumLeast` | compiler/consteval/intrinsic.go:287-312 | No enum with a one-byte tag before aligned payloads is smaller |
| `ParserTheorems.ParseSound` | compiler/parse/exprs.go:39-223 | What a level parses is a well-formed tree of that level that stands at its tokens |
| `ParserTheorems.Complete` | compiler/parse/exprs.go:39-223 | A well-formed tree that stands somewhere and is not continued is parsed |
| `ParserTheorems.RoundTrip` | compiler/parse/exprs.go:30-321 | Every tree that respects precedence and associativity, within the depth limit, is parsed back from its flattening |
| `ParserTheorems.ParseYieldsTree` | compiler/parse/exprs.go:30-430 | Every parse is such a tree, and its flattening is exactly the tokens consumed |
| `ParserTheorems.Unambiguous` | compiler/parse/exprs.go:39-321 | Two well-formed trees of any depth with the same tokens are the same tree |
| `Precedence.EveryOperatorHasAGroup` | compiler/parse/exprs.go:56-186 | The nine groups, written out, hold every binary operator |
| `Precedence.TwoOperators` | compiler/parse/exprs.go:56-186 | In `a t1 b t2 c` the second operator goes into the right operand of the first if and only if its group is a later one; otherwise to the left |
| `Precedence.PrefixFirst` | compiler/parse/exprs.go:201-223 | A prefix operator takes one operand before any binary operator does |
| `Precedence.CastFirst` | compiler/parse/exprs.go:188-199 | So does a cast |
| `Precedence.PostfixFirst` | compiler/parse/exprs.go:225-268 | So does a postfix operator |
| `Precedence.PrefixAfterPostfix` | compiler/parse/exprs.go:201-268 | A prefix operator takes what the postfix operators have taken |
| `Precedence.CastAfterPrefix` | compiler/parse/exprs.go:188-223 | A cast takes what the prefix operators have taken |
| `Precedence.AssignmentsRight` | compiler/parse/exprs.go:39-54 | Assignment groups to the right |
| `Precedence.AssignmentLast` | compiler/parse/exprs.go:39-54 | And below every binary operator |
| `Parser.Parser.Advance` | compiler/parse/parser.go:89-95 | The cursor never passes the end |
| `Parser.Parser.Expect` | compiler/parse/parser.go:113-121 | Consumes the token or reports |
| `Parser.Parser.Enter` | compiler/parse/parser.go:152-161 | The nesting limit |
| `Parser.Parser.ParseExpression` | compiler/parse/exprs.go:30-37 | Reports nothing if and only if the grammar parses, and then returns its tree and stops at its position; terminates on every input |
| `Parser.Parser.ParseAssignment` | compiler/parse/exprs.go:39-54 | The same, for assignment |
| `Parser.Parser.ParseBinary` | compiler/parse/exprs.go:56-186 | The same, for the nine binary levels |
| `Parser.Parser.ParseCast` | compiler/parse/exprs.go:188-199 | The same, for casts |
| `Parser.Parser.ParseUnary` | compiler/parse/exprs.go:201-223 | The same, for prefix operators |
| `Parser.Parser.ParsePostfix` | compiler/parse/exprs.go:225-268 | The same, for postfix operators |
| `Parser.Parser.ParseCallTail` | compiler/parse/exprs.go:270-287 | The same, for arguments |
| `Parser.Parser.ParseIndexTail` | compiler/parse/exprs.go:289-321 | The same, for indices and slices |
| `Parser.Parser.ParsePrimaryExpr` | compiler/parse/exprs.go:323-367 | The same, for the modelled primaries |
| `Parser.Parser.ParseParenOrTuple` | compiler/parse/exprs.go:398-430 | The same, for parentheses and tuples |
| `Parser.Parser.ParseTypeExpr` | compiler/parse/types.go:9-48 | The same, for path and pointer types |
| `Parser.Parser.ParsePathType` | compiler/parse/types.go:146-171 | The same, for path types |
| `Parser.Parser.ParseTypeArgs` | compiler/parse/types.go:173-184 | The same, for generic arguments |
| `Parser.ParseFromStart` | compiler/parse/exprs.go:12-37 | From a token list: no diagnostics means a well-formed tree that flattens to the tokens consumed; every well-formed tree the tokens begin with, and do not continue, is returned |
| `Utf8.DecodeLocal` | compiler/lex/scanner.go:167-194 | A rune of several bytes is read from its own bytes only |
| `Rescanning.LexOneCopied` | compiler/lex/scanner.go:274-855 | Whatever stood around it, a token's own bytes before a space or the end give the same token |
| `Rescanning.RescanStable` | compiler/lex/scanner.go:83-105 | A source that scans without diagnostics, reduced to its token texts with single spaces between, scans to the same kinds and texts |
| `TokenShapes.MaximalMunch` | compiler/lex/scanner.go:665-855 | Against the list of all operators: the one found is the longest that stands there, and none is found only where none stands |
| `TokenShapes.IntegerIs` | compiler/lex/scanner.go:563-619 | Digits alone are an integer, also before a dot that no digit follows |
| `TokenShapes.SuffixIs` | compiler/lex/scanner.go:635-650 | A word right after the digits belongs to the number |
| `TokenShapes.FractionIs` | compiler/lex/scanner.go:563-619 | Digits, a dot and digits are a float |
| `TokenShapes.ExponentIs` | compiler/lex/scanner.go:563-619 | So are digits and an exponent, signed or not |
| `TokenShapes.PrefixedIs` | compiler/lex/scanner.go:563-634 | A zero, a base letter and digits of that base are an integer |
| `TokenShapes.TriviaIs` | compiler/lex/scanner.go:208-224 | Blanks and comments come before a token and nothing else |
| `TokenShapes.LineCommentIff` | compiler/lex/scanner.go:140-224 | A line comment ends at the first line feed if and only if no carriage return stands before that; else it goes on after it |
| `TokenShapes.NextLineIsSkipped` | compiler/lex/scanner.go:140-224 | So after `//` and a CRLF any text without a line feed is scanned to no token |
| `TokenShapes.CommentBody` | compiler/lex/scanner.go:229-260 | Block comments nest: an opening pair adds a level, a closing one takes one away, all else is skipped |
| `TokenShapes.StringEnds` | compiler/lex/scanner.go:471-504 | A string ends at the first quote that no backslash escapes |
| `TokenShapes.RawStringEnds` | compiler/lex/scanner.go:366-437 | A raw string ends at the first quote that as many hashes follow as opened it |
| `TokenShapes.CharacterIs` | compiler/lex/scanner.go:507-547 | A character literal is one rune between apostrophes |
| `TokenShapes.UnicodeEscapeIs` | compiler/lex/scanner.go:507-547 | Or an escape, one of them `\u` with braces |
| `TokenShapes.KindIs` | compiler/lex/scanner.go:274-342 | The kind of a token from its first bytes |
| `Scanner.Scanner.Advance` | compiler/lex/scanner.go:140-162 | Line and column stay those of the offset, CR LF counting once |
| `Scanner.Scanner.AdvanceRune` | compiler/lex/scanner.go:167-194 | The same for a rune |
| `Scanner.Scanner.SkipTrivia` | compiler/lex/scanner.go:208-224 | Stops where the next token begins, or reports an open comment |
| `Scanner.Scanner.SkipBlockComment` | compiler/lex/scanner.go:229-260 | Nested comments |
| `Scanner.Scanner.ScanOne` | compiler/lex/scanner.go:274-295 | Appends exactly the token defined for this place, with its positions, or reports |
| `Scanner.Scanner.ScanWord` | compiler/lex/scanner.go:306-342 | The same for words and string prefixes |
| `Scanner.Scanner.ScanRaw` | compiler/lex/scanner.go:366-417 | The same for raw strings |
| `Scanner.Scanner.ScanQuoted` | compiler/lex/scanner.go:471-504 | The same for strings |
| `Scanner.Scanner.ScanChar` | compiler/lex/scanner.go:507-557 | The same for characters |
| `Scanner.Scanner.ScanNumber` | compiler/lex/scanner.go:563-619 | The same for numbers |
| `Scanner.Scanner.ScanPunct` | compiler/lex/scanner.go:665-855 | The same for operators, longest match first |
| `Scanner.Scanner.Run` | compiler/lex/scanner.go:83-105 | No diagnostic if and only if the text has a token sequence, which is then the one found; every token's text and positions are those of its place |
| `Scanner.ScanTwice` | compiler/lex/scanner.go:83-105 | Scanning, joining with spaces and scanning again gives the same tokens |
| `Versions.IntersectIsExact` | compiler/pkg/version.go:202-228 | The intersection holds exactly the common versions, and fails exactly when there is none |
| `Versions.CompareIsLexicographic` | compiler/pkg/version.go:55-77 | Versions are ordered by major, then minor, then patch; only equal versions compare as equal |
| `Versions.ContainsIff` | compiler/pkg/version.go:190-198 | A range holds what is not older than its lower bound and older than its upper one, by those fields |
| `Versions.LatestIsLargest` | compiler/pkg/version.go:235-248 | The choice is a candidate in the range than which, by major, minor and patch, no other in the range is newer; none only if no candidate is in the range |
| `Versions.SelectLatestOf` | compiler/pkg/version.go:235-248 | The loop computes that choice |
| `Resolution.PublishedIff` | compiler/pkg/registry.go:104-125 | The available versions are those of the index's releases |
| `Resolution.DependenciesAt` | compiler/pkg/registry.go:127-142 | The dependencies of a version are those of its first release |
| `Resolution.WalkKeeps` | compiler/pkg/resolver.go:91-172 | A finished walk keeps the invariant, only tightens constraints, keeps earlier choices and records the dependency |
| `Resolution.ResolveSound` | compiler/pkg/resolver.go:71-198 | For any order of the roots a resolution meets every root constraint and every dependency of every selected release, holds only packages reached from the root, and has an order with dependencies first |
| `Resolution.NoCycle` | compiler/pkg/resolver.go:93-101 | So its dependency graph has no cycle |
| `Resolution.ErrorsAreGenuine` | compiler/pkg/resolver.go:91-140 | A reported cycle is a chain of dependencies between published releases from a root that returns to itself; an unknown package has no release; a failed match names a package of which the manifest and selected releases ask what the version selected for it, or every published one, does not meet |
| `RootOrder.SelectsTheBest` | compiler/pkg/resolver.go:91-198 | On success each selected version is published, meets every demand of the manifest and the selected releases, and no other published version that does is newer by major, minor and patch |
| `RootOrder.WalkLatest` | compiler/pkg/resolver.go:91-172 | Where the latest releases meet each other's demands, a walk selects nothing else and fails only on a chain of them that returns to itself or ends in a package without releases |
| `RootOrder.LatestResolves` | compiler/pkg/resolver.go:71-198 | Then for every order of the roots resolution succeeds if and only if there is no such chain, and selects exactly the latest releases that are reached |
| `RootOrder.OrderIsIrrelevant` | compiler/pkg/resolver.go:174-238 | Then any two orders of the roots both succeed with the same versions or both fail; a condition on the registry alone, which `JointRoots.OneResolutionIff` makes exact |
| `RootOrder.AllLatestIff` | compiler/pkg/resolver.go:91-198 | A resolution selects nothing but latest releases if and only if they meet each other's demands |
| `RootOrder.RootOrderMatters` | compiler/pkg/resolver.go:174-238 | A manifest that fails in one order and resolves in the other |
| `RootOrder.TwoResolutions` | compiler/pkg/resolver.go:174-238 | A manifest that resolves in both orders, to different versions, each the best for its demands |
| `JointRoots.WalkAlike` | compiler/pkg/resolver.go:91-172 | A walk begun after other roots does what it does from the start, less the packages that these selected with all they need |
| `JointRoots.JointResolves` | compiler/pkg/resolver.go:71-198 | If each root resolves alone, no two differ on a package and their union is consistent, every order of the roots resolves to that union |
| `JointRoots.OneResolutionIff` | compiler/pkg/resolver.go:71-238 | Every iteration order resolves to u if and only if each root resolves alone, u is the union of what they select and u is consistent |
| `JointRoots.OrderIsIrrelevantIff` | compiler/pkg/resolver.go:71-238 | Once an order has resolved, every order resolves to the same versions if and only if each root walked alone resolves to a part of them |
| `JointRoots.SameOutcomeIff` | compiler/pkg/resolver.go:71-238 | Any two orders have the same outcome if and only if every order fails or the roots go together in that way |
| `JointRoots.PinnedRoot` | compiler/pkg/resolver.go:71-198 | A root pinned below the latest release, where the order cannot matter although the latest release does not fit |
| `Resolver.Resolver.Visit` | compiler/pkg/resolver.go:92-172 | The maps, marks and stack change as the walk says; terminates on a finite registry |
| `Resolver.Resolver.VisitAll` | compiler/pkg/resolver.go:163-178 | The loop over dependencies |
| `Resolver.ResolveAll` | compiler/pkg/resolver.go:71-198 | Success is consistent, reachable, ordered and the best for its demands; failure is genuine; where the latest releases, or the roots walked alone, go together the outcome is the same for every order |
| `PassGraph.LessIff` | compiler/hir/manifest.go:157-171 | The order of names is that of dictionaries |
| `PassGraph.KahnCompleteIff` | compiler/hir/manifest.go:131-178 | Every pass is listed exactly when the graph has no cycle |
| `PassGraph.KahnIsLeast` | compiler/hir/manifest.go:157-171 | Of all topological orders the computed one is lexicographically least |
| `PassManifest.Manifest.Register` | compiler/hir/manifest.go:81-88 | A new name is added and the order invalidated |
| `PassManifest.Manifest.CheckInputs` | compiler/hir/manifest.go:123-130 | Finds an unknown input exactly when there is one, in any iteration order |
| `PassManifest.Manifest.CountInputs` | compiler/hir/manifest.go:133-143 | In-degrees and readers, repetitions counted |
| `PassManifest.KahnOrder` | compiler/hir/manifest.go:148-171 | The queue over in-degrees computes the least-first order |
| `PassManifest.Manifest.Validate` | compiler/hir/manifest.go:122-178 | Succeeds exactly when all inputs are known and there is no cycle; the order is then the least topological one; a failure changes nothing |
| `IncrementalPlan.TaintedStep` | compiler/hir/incremental.go:53-58 | Reachable from a dirty name: dirty itself or some input reachable |
| `IncrementalPlan.RerunSet` | compiler/hir/incremental.go:67-86 | One walk over the order finds exactly the reachable passes |
| `IncrementalPlan.MakePlan` | compiler/hir/incremental.go:62-103 | Rerun is the reachable passes, Reuse the others, both sorted |
| `IncrementalPlan.IncrementalEqualsFull` | compiler/hir/incremental.go:12-30 | Rerunning only those over the previous outputs gives what running every pass gives |
| `Moves.NoUseAfterMove` | compiler/liveness/liveness.go:399-502 | A body without diagnostics reads no moved binding, on any path and with any shadowing, unless a name that some let or var moves is read in a form the walk does not enter or declared without an initialiser |
| `Moves.DeferredInitialiserEscapes` | compiler/liveness/liveness.go:432-448 | For all names: `let x; let y = x;` then reading z is never reported, and reads a moved binding exactly when z is x, not Copy and not y |
| `Moves.UnwalkedReadEscapes` | compiler/liveness/liveness.go:472-502 | For all names: after `let y = x;` a form the walk does not enter is never reported, and reads a moved binding exactly when it reads x and x is not y |
| `MoveEvents.DiagnosticsAreLateReads` | compiler/liveness/liveness.go:399-502 | There is one diagnostic for every read of a name that a let or var earlier in the text moved when it was a parameter or already bound |
| `MoveEvents.DiagnosedIff` | compiler/liveness/liveness.go:399-502 | A diagnostic is given if and only if there are such a read, move and binding, in that order backwards |
| `MoveEvents.NoMovesNoDiagnostics` | compiler/liveness/liveness.go:399-502 | A body that moves no name gets none |
| `MoveEvents.ShadowedIsReported` | compiler/liveness/liveness.go:430-470 | For all names: after `let y = x; let x = v;` a read is reported exactly when it is of x, though no execution reads a moved binding |
| `MoveChecker.MoveEnv.VisitStmt` | compiler/liveness/liveness.go:430-470 | The name sets change as the walk says |
| `MoveChecker.MoveEnv.VisitExpr` | compiler/liveness/liveness.go:472-502 | The same for expressions |
| `MoveChecker.CheckUseAfterMove` | compiler/liveness/liveness.go:399-408 | No diagnostic, and every name that is moved is seen: no execution reads a moved binding |
| `Formatter.FormatText` | compiler/fmt/fmt.go:29-67 | The loop prints the gathered document |
| `Formatter.FormatIdempotent` | compiler/fmt/fmt.go:19-20 | Formatting twice is formatting once |
| `Formatter.FormatTidy` | compiler/fmt/fmt.go:22-28 | No CR, tab, trailing space, leading or double blank line; exactly one final newline |
| `Formatter.FormatKeepsLines` | compiler/fmt/fmt.go:41-61 | The lines that are not blank are kept, in order |
| `FormatRules.TrimIff` | compiler/fmt/fmt.go:44-45 | A line is trimmed to t exactly when it is t and then blanks, and t does not end in one |
| `FormatRules.UntabIs` | compiler/fmt/fmt.go:42-43 | Each tab becomes four spaces and all between tabs is kept |
| `FormatRules.LinesRead` | compiler/fmt/fmt.go:31-36 | Of any lines, each ended by LF, CRLF or CR, exactly those lines are read |
| `FormatRules.EveryText` | compiler/fmt/fmt.go:31-36 | Every text is such lines |
| `FormatRules.FormatIs` | compiler/fmt/fmt.go:41-66 | The lines with something besides blanks are kept, in order; one blank line stands between two of them exactly when there was at least one |
| `Positions.PositionToByteOffset` | compiler/lsp/docstore.go:129-167 | The loops compute the offset |
| `Positions.ByteOffsetToPosition` | compiler/lsp/docstore.go:172-194 | The loops compute the position |
| `Positions.OffsetRoundTrip` | compiler/lsp/docstore.go:129-194 | An offset on a rune boundary is found again from its position |
| `Positions.PositionRoundTripIff` | compiler/lsp/docstore.go:129-194 | An accepted position is found again if and only if its line is at most the newline count |
| `Positions.LineBeyondIsLost` | compiler/lsp/docstore.go:129-194 | The failing side: in a text that is one newline, position (2,0) is offset 1, which is position (1,0) |
| `Positions.EditIsSplice` | compiler/lsp/docstore.go:105-117 | An edit between two boundaries replaces exactly the bytes between them |
| `Positions.ApplyRangeEdit` | compiler/lsp/docstore.go:105-117 | The edit, or appending where a position is not accepted |
| `Encodings.DecodeEncoded` | compiler/lex/scanner.go:167-194 | The UTF-8 bytes of every scalar value decode to it |
| `Encodings.DecodedIff` | compiler/lex/scanner.go:167-194 | Whatever is decoded stands there as the UTF-8 bytes of a scalar; the replacement character of size one is the answer exactly where no scalar's bytes stand |
| `Encodings.ColumnsAreUnits` | compiler/lsp/docstore.go:172-194 | Columns are the length of the UTF-16 encoding, surrogates written out |
| `Encodings.PositionIsUnits` | compiler/lsp/docstore.go:129-194 | The end of a line's first scalars is at the line after so many line feeds, at the column that is their length in UTF-16, and is found again from there |
| `Positions.DocStore.Apply` | compiler/lsp/docstore.go:60-76 | Changes apply in order, each to the result of the one before |

## Left out

- Lowering of casts, references, struct literals, method calls, slices, `spawn` and payload patterns: each adds one instruction or a rejection.
- Lowering of overloaded equality: a comparison of values that are not scalars is a call like any other, so its result is the world's; `!=` through such a call is outside the fragment.
- Emitted.SumsWrap: the machine wraps; the C text that the code generator emits leaves signed overflow to the C compiler, which is not part of this model.
- Constant evaluation of struct values and fields, array indexing, and the `size_of` and `align_of` calls inside expressions; `Layouts` has their meaning for finite types.
- Constant evaluation: a tuple pattern bound to a struct value, on which the source panics, cannot be written.
- Substitution: the rewriting is a function on trees; update of shared nodes in place is not captured, and constant functions are kept, since constants are evaluated by calling them, while the source drops them from the program afterwards.
- Evaluator scopes are maps; the chain of parent frames is not modelled.
- Parsing of blocks, `if`, `match`, loops, closures, struct literals, items, and of array, tuple, function and trait types: the parser of this model records them as outside the fragment.
- Parsing: spans of nodes and the texts of diagnostics.
- Scanning: the contents of diagnostics and what is scanned after the first one.
- Resolution.ErrorsAreGenuine: a failed match does not mean that no resolution exists; a choice once made is not revisited, as `RootOrder.RootOrderMatters` shows.
- Resolution: reading range spellings, sorting the entries and writing the lockfile.
- IncrementalPlan: fingerprints; a pass is a function of its name and its inputs' outputs.
- Moves: the types of values; whether a path is Copy is part of the path.
- Code generation, the driver, the language server's transport, monomorphisation and closure capture analysis.
