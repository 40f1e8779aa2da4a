# A verified model of the datalog.js evaluation core

`datalog.js` is a small Datalog engine. A program is a database of rules. Each rule has a
head clause and a list of conditions, and a condition may be negated (`Not`). A clause has a
name with one `@` placeholder per argument, such as `@likes@`. Its arguments are variables,
wildcards, values or aggregates (`count`, `list`, `sum`, `prod`, `min`, `max`) over a term.

Evaluation proceeds in six steps:

1. Every rule's variables are renamed apart by prefixing them with the rule's index.
2. The rules are grouped by canonical name. A canonical name is the clause name with each
   value argument spliced into its placeholder. The source splices by text replacement,
   which can put a value inside an earlier value (see Findings). The model keys rules by the
   corrected name and models the replacement separately.
3. A dependency graph is built over canonical names. In the source, a rule depends on every
   other rule whose head unifies with one of its positive conditions. A negated condition
   gives no edge, because `Not.unify` throws and the throw is swallowed (see Findings). The
   model takes the edge test as a parameter `uses`: `MayUseAsWritten` is the source's test,
   and `MayUse` also gives an edge for each negated condition.
4. The graph is cut into strongly connected components with Kosaraju's algorithm. The
   components are sorted so that each comes after the components it uses.
5. The program is validated:
   - head variables must be bound by a condition;
   - a negated condition must not refer to a rule of the same stratum;
   - an aggregate rule must not refer to a rule of the same stratum.
6. Each stratum is evaluated in order.
   - A plain stratum is run to a fixpoint by a nested-loop search that unifies conditions
     against the known facts or against the facts of the built-in `member` clauses.
   - An aggregate rule folds every match into one fact per group of its non-aggregate
     arguments.

The Dafny project models all of this as pure functions over immutable data. The modules
follow the structure of the source:

| module | file | what it holds |
|---|---|---|
| `Wrappers` | wrappers.dfy | `Option` and `Result` |
| `Graphs` | graphs.dfy | a graph as ordered keys plus an edge map; paths, reachability, same component |
| `Scc` | scc.dfy | `reverseEdges`, `findOrder`, `findSCCs`, `ensureNoUndefinedRuleReferences` |
| `Strata` | strata.dfy | `buildStratumDict`, `computeDeps`, `sortStrata`, `stratify` |
| `Literals` | literals.dfy | the JavaScript values a program holds, and how `Value.toString` prints them |
| `Terms` | terms.dfy | clauses, rules, `rewrite`, `hasAggregates`, `stripAggregates`, `Aggregate.get` |
| `Names` | names.dfy | `canonicalName` |
| `Mangling` | mangling.dfy | `withMangledVariableNames` |
| `Unification` | unification.dfy | `Environment.addBinding` and `unify` |
| `Aggregates` | aggregates.dfy | the six aggregate functions |
| `Builtins` | builtins.dfy | the `member` built-ins |
| `DepGraph` | depgraph.dfy | `buildDependencyGraph` |
| `Program` | program.dfy | `translateRuleNamesToRules` and `computeStrata` |
| `Validation` | validation.dfy | `ensureProgramIsValid` and its three checks |
| `Facts` | facts.dfy | the fact store, `recordNewFact`, the aggregate map, `storeAggregateFacts` |
| `Evaluation` | evaluation.dfy | `findNewFacts`, `evaluateStratum`, `evaluateAggregateRule`, `eval` |
| `Derivations` | derivations.dfy | which facts the search of `findNewFacts` adds: soundness and completeness |
| `Runs` | runs.dfy | what `eval` computes, stratum by stratum |
| `Query` | query.dfy | `factsFor` and `onlyDependenciesOf` |

Errors that the source throws are `Failure` values:

- `'unification failed'` is `Mismatch`.
- The throw from `Not.unify` is `NotUnifiable`.
- Endless recursion through a variable bound to itself is `Diverges`.
- The throw from `ensureProgramIsValid` is `Invalid` and carries the collected messages.
- The `TypeError`s that `eval` can hit are `BuiltinFailed`, for a `member` condition without
  arguments, and `NoAggregateMap`, for an aggregate rule in a stratum that does not start with
  it. `EmptyStratum` stands for `stratum[0]` of a stratum without rules. It arises only for
  strata built by hand, because every computed stratum holds a rule
  (`Evaluation.EvalNeverEmptyStratum`).

`findNewFacts` catches only `'unification failed'` and rethrows every other error. A negated
condition swallows every error. Both behaviours are modelled.

The fact store is a sequence of distinct facts, and a fact is identified by its structure.
For each condition, the candidate facts are the store as it stood when that condition's
loop began.

## Model

| member | source | states |
|---|---|---|
| Scc.UndefinedReferences | datalog.js:68-79 | the reported names are exactly the edge targets that are not keys, each reported once; nothing is reported iff every target is a key |
| Scc.ReverseEdges | datalog.js:7-21 | the keys are unchanged; `a -> b` is an edge of the result iff `b -> a` is an edge of the input; no target list repeats a node |
| Scc.FindOrder | datalog.js:23-40 | the finishing stack holds every key exactly once; when a node finishes, each node it reaches has finished too, or some member of its own component has not finished yet |
| Scc.SameLeaderIff | datalog.js:47-63 | with leaders assigned by the second pass, two nodes share a leader iff they are in the same strongly connected component |
| Scc.FindSCCs | datalog.js:42-66 | fails iff some edge names an undefined rule, and then lists exactly those names; otherwise every key is labelled, its leader is in its own component, and two keys share a leader iff they share a component |
| Strata.BuildStratumDict | datalog.js:115-125 | one stratum per leader, holding exactly the nodes labelled with that leader, with no deps yet |
| Strata.ComputeDeps | datalog.js:127-141 | members are unchanged; a stratum's deps have no repeats and never name the stratum itself; `d` is a dep iff some member has an edge into the component led by `d` |
| Strata.SortStrata | datalog.js:92-113 | when the sort finishes, its output is a permutation of the strata, and every dep of a stratum leads an earlier stratum |
| Strata.SortSucceeds | datalog.js:95-105 | when strata can be ranked so that every dep has a lower rank, the repeated sweeps never stall, so the JavaScript loop ends |
| Strata.EdgesGoBack | datalog.js:85-90 | in stratified output, every edge from stratum `i` goes to a stratum `j <= i`, and `j == i` iff both ends are in one component |
| Strata.Stratify | datalog.js:85-90 | fails iff some edge names an undefined rule; otherwise the strata partition the keys into components, their deps are exactly the components they use, and each stratum follows its deps |
| Literals.NatToStringInjective | datalog.js:379-387 | two numbers print alike iff they are equal |
| Literals.ParseNatToString | datalog.js:379-387 | reading back a printed number gives the number |
| Literals.RenderStringsInjective | datalog.js:379-387 | two string values print alike iff they are equal, since quoting never makes a clash |
| Literals.IntToStringInjective | datalog.js:379-383 | two integers print alike iff they are equal |
| Literals.RenderScalarsInjective | datalog.js:379-387 | two values that are each a string or a number print alike iff they are equal |
| Terms.AggregateGet | datalog.js:282-288 | succeeds iff the name is one of the six aggregates, and the result then wraps the given term; otherwise the error is `aggregate <name> not supported` |
| Terms.StripAggregates | datalog.js:575-581 | name and arity are kept; non-aggregate arguments are unchanged; an aggregate argument becomes the term it aggregates |
| Terms.StripAggregatesIdentity | datalog.js:239-265 | stripping changes a clause iff the clause has an aggregate |
| Terms.RewriteCore | datalog.js:397-421 | rewriting a term replaces its underlying variable by its binding, and nothing else |
| Terms.RewriteGround | datalog.js:397-421 | a clause of values is left unchanged by rewriting under any environment and by stripping |
| Names.CanonicalNameFillsInOrder | datalog.js:217-227 | the first placeholder receives the first argument's slot, and the rest of the name is filled from the remaining arguments; this is the unfolding step, and what the canonical name distinguishes is stated by `Names.FillSameSlots`, `Names.CanonicalNameSeparatesScalars` and the two counterexample lemmas after them |
| Names.FillSameSlots | datalog.js:217-227 | clauses whose arguments agree on which are values, and on those values, have the same canonical name |
| Names.CanonicalNameWithoutValues | datalog.js:217-227 | a clause with no value arguments has its own name as canonical name |
| Names.CanonicalNameSeparatesScalars | datalog.js:217-227 | with one argument that is a string or a number, two clauses have the same canonical name iff the values are equal |
| Names.ListNamedLikeString | datalog.js:378-383 | an array prints as its joined elements, so `p@` with `["a"]` and with `"a"` get the same canonical name |
| Names.QuotedStringsClash | datalog.js:378-386 | quotes inside strings are not escaped, so for strings `a`, `b`, `c` with `a` and `c` printed quoted, `p@@` with `a")("b` and `c` gets the same canonical name as with `a` and `b")("c` |
| Names.AsWrittenSplicesIntoValue | datalog.js:220-226 | the source's text replacement gives `p@@("a@b", 1)` and `p@@("a(1)b", X)` the same canonical name; the corrected definition separates them |
| Names.AsWrittenStarClash | datalog.js:226 | the source gives the values `"*"` and `"@"` the same canonical name; the corrected definition separates them |
| Names.AsWrittenAgrees | datalog.js:220-226 | when the name has no `*` and no printed value holds `@` or `*`, the source's replacement agrees with the corrected definition |
| Mangling.MangleTerm | datalog.js:456-470 | a variable `n` becomes `<idx>_n`; values and wildcards are unchanged; an aggregate keeps its function |
| Mangling.MangleRules | datalog.js:428-433 | one rule per input rule, with the `i`-th rule mangled with index `i` |
| Mangling.UnmangleMangleRule | datalog.js:435-470 | mangling loses nothing: stripping the prefix gives back the original rule, so the shape is preserved |
| Mangling.MangledRulesShareNoVariables | datalog.js:428-458 | after mangling, no variable occurs in two different rules |
| Mangling.MangleKeepsCanonicalName | datalog.js:444-466 | mangling does not change a clause's canonical name |
| Mangling.MangleKeepsAggregates | datalog.js:468-470 | a mangled clause has an aggregate iff the original does |
| Unification.AddBinding | datalog.js:484-492 | the new name is bound to the value, and every earlier binding is rewritten with the new one substituted |
| Unification.RewriteAfterBinding | datalog.js:484-492 | for a fresh name, rewriting under the extended environment equals rewriting under the old one and then substituting the new binding |
| Unification.UnifyTerms | datalog.js:524-540 | two values unify iff they are equal, and then the environment is unchanged; an unbound variable is bound to the other side rewritten through the environment |
| Unification.UnifyClauses | datalog.js:510-518 | a name or arity mismatch fails with `Mismatch`; success implies the names and arities agree |
| Unification.UnifyCondition | datalog.js:520-522 | a negated condition never unifies |
| Unification.UnifyTermsSound | datalog.js:524-544 | from an environment without cycles, unification fails only by mismatch; on success both terms denote the same atom and all earlier equalities survive |
| Unification.UnifyClausesSound | datalog.js:510-518 | from an environment without cycles, a successful clause unification makes every pair of arguments denote the same atom |
| Unification.UnifyArgsValues | datalog.js:535-540 | argument lists of values unify iff they are equal |
| Unification.UnifyWithGround | datalog.js:524-529 | unifying against a value keeps every binding a value |
| Unification.SelfBindingDiverges | datalog.js:524-529 | the source's unification of `(B, B, B)` with `(X, X, X)` binds `X` to itself and recurses without end; the corrected version binds `B` to `X` |
| Unification.AsWrittenAgreesOnFacts | datalog.js:524-529 | against the arguments of a fact, the source's unification and the corrected one agree |
| Unification.UnifyArgsWithValuesSymmetric | datalog.js:524-540 | unifying arguments with values, and values with the arguments, give the same result, environment included |
| Unification.UnifyClausesWithFactSymmetric | datalog.js:510-540 | `c.unify(fact)` and `fact.unify(c)` give the same result, environment included, when the fact's arguments are values |
| Aggregates.CountCounts | datalog.js:292-298 | `count` over `n > 0` contributions is `n` |
| Aggregates.SumAdds | datalog.js:312-318 | `sum` over numbers starts at 0 and is their total |
| Aggregates.ProdMultiplies | datalog.js:320-326 | `prod` over numbers starts at 1 and is their product |
| Aggregates.MinIsLeast | datalog.js:328-334 | `min` is one of the numbers and no larger than any of them |
| Aggregates.MaxIsGreatest | datalog.js:336-342 | `max` is one of the numbers and no smaller than any of them |
| Aggregates.Insert | datalog.js:305-308 | inserting into the list adds exactly one occurrence of the element |
| Aggregates.InsertSorted | datalog.js:305-308 | inserting into a sorted list keeps it sorted |
| Aggregates.StepListShape | datalog.js:300-310 | one `list` step keeps the list sorted and free of duplicates, leaves it unchanged when the element is present, and otherwise adds the element |
| Aggregates.ListCollects | datalog.js:300-310 | `list` gives a sorted, duplicate-free list holding exactly the contributed elements |
| Aggregates.LexLessTotal | datalog.js:307 | the default sort order compares any two distinct strings |
| Aggregates.SortsBeforeTransitive | datalog.js:307 | the default sort order is transitive |
| Builtins.Elements | datalog.js:813-816 | a string yields its characters, an array yields its items, and anything else yields nothing |
| Builtins.MemberFacts | datalog.js:808-822 | fails iff the clause has no arguments; otherwise there is one fact per element of a string or array value, and none for any other first argument |
| Builtins.MemberFactsAre | datalog.js:812-822 | a fact is produced iff it holds the collection, one element and, for the three-argument forms, the element's index at the position the name dictates |
| DepGraph.AddDep | datalog.js:883-884 | a name is added to a dependency list at most once |
| DepGraph.BuildDependencyGraphBuilds | datalog.js:869-890 | the keys are exactly the rules' canonical names; no dep list repeats a name; `a -> b` iff some rule named `a` has a non-built-in condition that unifies with the head of another rule named `b` |
| DepGraph.DependencyGraphStratifies | datalog.js:624-626 | the dependency graph of any program names no undefined rule, so stratification always succeeds |
| DepGraph.NegatedConditionsGiveNoEdges | datalog.js:875-886 | with the source's `Not.unify`, `p :- r, ~q.` gives no edge from `p` to `q`; unifying the negated clause gives edges both ways |
| Program.FindStratum | datalog.js:906-910 | finds a stratum holding the name when there is one, and reports none iff no stratum holds it |
| Program.DepIndices | datalog.js:905-912 | translating dep names fails iff some name is in no stratum; otherwise each dep points at the first stratum holding its name |
| Program.TranslateRuleNamesToRules | datalog.js:892-913 | fails iff some dep names no stratum; otherwise each stratum keeps its names, holds exactly the rules whose canonical name it lists, in program order, and points each dep at the stratum holding that name |
| Program.ComputeStrataOrders | datalog.js:624-629 | for every program and every edge test, the source's `MayUseAsWritten` included: the translation succeeds; no stratum is empty; every rule of the program is in a stratum, the one listing its name, and no name is listed by two strata; every dep is an earlier stratum; when a condition of rule `x`, not a built-in, may use the head of rule `y`, the stratum of `y` is that of `x` or an earlier one, and the same one iff the two names are in one component |
| Program.UseGoesBack | datalog.js:624-629 | one use of a rule's head by another rule's condition, not a built-in, points to the same stratum or an earlier one, and to the same one iff the two names are in one component |
| Program.ProgramStrata | datalog.js:624-629 | the strata of a program are in dependency order, none is empty, and each rule is in exactly one, and only uses rules of its own stratum or earlier ones |
| Validation.HeadVars | datalog.js:672-680 | the head's variables, including those under aggregates, each listed once |
| Validation.WildcardErrors | datalog.js:673-675 | one error per wildcard in the head, and an error iff the head has a wildcard |
| Validation.Unbound | datalog.js:692-696 | a head variable is reported iff no positive condition binds it |
| Validation.SameStratumRefs | datalog.js:702-720 | a name is reported iff a condition of the kind checked refers to it and it is in the same stratum |
| Validation.CheckHeadVarsOk | datalog.js:671-700 | the head check reports nothing iff the head has no wildcard and every head variable is bound by a positive condition |
| Validation.SameStratumRefsOk | datalog.js:702-710 | the same-stratum check reports nothing iff no condition of the kind checked names a rule of the stratum |
| Validation.CheckRuleOk | datalog.js:655-661 | a rule passes all three checks iff its head variables are bound, no negated condition is in its stratum, and, for an aggregate rule, no condition is in its stratum |
| Validation.EnsureProgramIsValid | datalog.js:653-669 | a failure carries every error collected, and there is at least one |
| Validation.EnsureProgramIsValidAccepts | datalog.js:653-669 | a program is accepted iff every rule of every stratum passes its checks |
| Facts.AddFact | datalog.js:829-833 | reports true iff the fact was new; afterwards the fact is stored, nothing else is added, and the store stays free of repeats |
| Facts.EmptyGroup | datalog.js:850-867 | a new group fact copies the non-aggregate arguments and holds `undefined` at each aggregate position |
| Facts.Merge | datalog.js:842-845 | each aggregate position takes one fold step with the new contribution, and the other positions are kept |
| Facts.GroupKeyAgnostic | datalog.js:851-857 | facts that agree on the non-aggregate positions fall in the same group |
| Facts.GroupingAggregates | datalog.js:836-867 | after all matches are recorded there is exactly one group fact per key met; it carries the key's values, and each aggregate position holds the fold of that group's contributions in order |
| Facts.StoreGroups | datalog.js:271-275 | storing the group facts keeps every old fact, adds exactly the group facts, and repeats none |
| Evaluation.RecordNewFact | datalog.js:825-834 | a plain rule stores its rewritten head and reports true iff it was new; an aggregate rule succeeds iff its aggregate map exists, reports true, leaves the store alone and hands the fact to the map |
| Evaluation.Candidates | datalog.js:758-760 | a built-in condition draws on the member facts, and fails when it has no arguments; any other condition draws on the whole store |
| Evaluation.FindNewFacts | datalog.js:746-787 | the search only adds facts; its only errors are those it lets through; without an aggregate map it reports true iff the store grew (which facts it adds: `Derivations.FindNewFactsSound` and `Derivations.FindNewFactsComplete`) |
| Evaluation.Round | datalog.js:733-735 | one pass over a stratum only adds facts, each of them an instance of some rule's head, and reports true iff the store grew |
| Evaluation.EvaluateStratum | datalog.js:722-738 | the store only grows; a stratum of plain rules whose `member` conditions have arguments never fails; a run that does not report done either had no fuel or grew the store; a run that reports done has reached a fixpoint, where one more pass finds nothing |
| Evaluation.StratumGivesUp | datalog.js:722-738 | a stratum that does not report done added at least one fact in each of the passes allowed |
| Evaluation.FindNewFactsGroups | datalog.js:825-867 | however the search goes, the aggregate map stays the grouping, in order, of the instances of the head handed to it |
| Evaluation.AggregateSearch | datalog.js:740-742 | the search for an aggregate rule leaves the store alone, and its map is the grouping of the recorded instances of the head |
| Evaluation.AggregateRuleGroups | datalog.js:740-744 | after an aggregate rule the store holds exactly the old facts plus one group fact per key, each carrying its fold |
| Evaluation.EvalStrata | datalog.js:641-649 | evaluating the strata in order only adds facts and never raises a validation error (which facts: `Runs.EvalStrataRuns`) |
| Evaluation.EvalStrataNeverEmpty | datalog.js:643-647 | strata that all hold a rule never fail with `EmptyStratum` |
| Evaluation.EvalNeverEmptyStratum | datalog.js:631-651 | `eval` never fails with `EmptyStratum`, for any program and any edge test |
| Evaluation.Eval | datalog.js:631-651 | for any edge test, the source's `MayUseAsWritten` included: the result never repeats a fact; evaluation fails with a validation error iff the program's strata fail validation, and then it carries exactly their errors (which facts it returns: `Runs.EvalRuns`) |
| Evaluation.EvalFailsOnlyWhenInvalid | datalog.js:631-651 | for any edge test, and programs whose strata have the shape the engine expects, evaluation succeeds iff the program is valid |
| Derivations.DerivesWiden | datalog.js:746-787 | a way to satisfy a rule's conditions stays one with more facts for its positive conditions and fewer for its negated ones |
| Derivations.FindNewFactsSound | datalog.js:746-787 | every fact the search adds to the store or hands to the aggregate map is the head rewritten through an environment in which each positive condition unifies with a fact known after the search and each negated condition with no fact known before it |
| Derivations.TryEachSound | datalog.js:764-774 | every fact the loop over a positive condition's candidates adds comes through some candidate that unifies with the condition |
| Derivations.FindNewFactsComplete | datalog.js:746-787 | for every environment whose positive conditions unify with facts known before the search and whose negated conditions unify with no fact known after it, the head is stored (plain rule) or handed to the aggregate map (aggregate rule) |
| Derivations.TryEachComplete | datalog.js:764-774 | every candidate that unifies with a positive condition, and leads to a way to satisfy the rest, gets its head recorded |
| Derivations.RoundSound | datalog.js:733-735 | every fact a pass adds is the head of one of the stratum's rules, rewritten through an environment that satisfies that rule's conditions |
| Derivations.RoundComplete | datalog.js:733-735 | after a pass, the head of every rule is known for every environment that satisfies the rule's conditions against the facts before and after the pass |
| Derivations.EvaluateStratumSound | datalog.js:722-738 | every fact a stratum adds is the head of one of its rules, for an environment whose positive conditions unify with facts known at the end and whose negated conditions unify with no fact known at the start |
| Derivations.EvaluateStratumCloses | datalog.js:722-738 | when a stratum reports done, its facts are closed under its rules: every head whose positive conditions unify with known facts and whose negated conditions unify with none is a known fact |
| Derivations.AggregateSearchSound | datalog.js:740-742 | every fact an aggregate rule's search hands to the aggregate map is the head for an environment that satisfies the conditions against the known facts |
| Derivations.AggregateSearchComplete | datalog.js:740-742 | every head for an environment that satisfies an aggregate rule's conditions against the known facts is handed to the aggregate map |
| Runs.StratumSteps | datalog.js:722-738 | a plain stratum adds only heads of its rules whose negated conditions fail against the facts it started from; when it reports done its facts are closed under its rules, and otherwise every allowed pass added a fact |
| Runs.AggregateSteps | datalog.js:740-744 | an aggregate rule adds exactly one fact per group of the instances of its head that the facts before it derive, each of them and all of them |
| Runs.EvalStrataRuns | datalog.js:641-649 | the strata are evaluated in order, each taking the facts the one before left, an aggregate stratum holding its rule alone, and evaluation going on past a plain stratum only when it reached a fixpoint |
| Runs.EvalRuns | datalog.js:631-651 | for any edge test, the source's `MayUseAsWritten` included, a successful `eval` returns the end of such a run of the program's strata from no facts |
| Query.FactsFor | datalog.js:198-210 | the result holds exactly the rules without conditions whose head unifies with the clause under the source's `Variable.unify`, an endless recursion counting as no, in database order |
| Query.FactsForAppend | datalog.js:198-210 | the answers from a database split in two are the answers from the first part followed by those from the second, so the filter keeps database order and repeats (with `Query.FactsForOne` for a single rule) |
| Query.FactsForGround | datalog.js:198-210 | for a clause of values, a fact of values answers it iff it equals it |
| Query.AddTransitiveDeps | datalog.js:589-595 | a stratum is added after all of its transitive deps, at most once, and nothing outside them is added |
| Query.DependencyStrata | datalog.js:588-610 | the strata kept are exactly those below some stratum with a head unifying with the clause under the source's `Variable.unify`, with each listed once and after its deps |
| Query.Pruned | datalog.js:612-617 | the rules kept are exactly the rules of the strata kept |
| Query.OnlyDependenciesOf | datalog.js:584-618 | for any edge test, the source's `MayUseAsWritten` included: a built-in clause keeps nothing; otherwise the rules kept are those of the strata the clause can depend on |
| Query.OnlyDependenciesOfKeepsRules | datalog.js:584-618 | for any edge test, the source's `MayUseAsWritten` included: every kept rule is a rule of the program, from a stratum the clause depends on |

## Left out

- User interface files, `meh.js`, `objectUtils.js` and `equals.js` are not part of this model. Key iteration is taken in insertion order and deep equality is structural equality. A `for ... in` loop over the facts visits the facts present when it began and none added during it. This is what V8 does. The language leaves keys added during enumeration to the implementation.
- `Environment.prototype.clone` (datalog.js:494-501) is the identity: environments are immutable maps.
- The `window.confirm` prompt every 1000 passes of `evaluateStratum` becomes a `fuel` parameter. A run that exhausts it stops the way a declined prompt does.
- `console.log` of validation errors is left out. The errors are returned in `Invalid`.
- The global `Wildcard.count` is left out. A wildcard carries its own variable name, and the model does not check that these names are fresh.
- Numbers are integers: floating point, `NaN`, and the JavaScript coercions that `sum`, `prod`, `min` and `max` apply to non-numbers are not modelled.
- `Aggregates.SumAdds`: stated only for contributions that are all numbers, because string concatenation under `+` is not modelled. The same restriction applies to `Aggregates.ProdMultiplies`, `Aggregates.MinIsLeast` and `Aggregates.MaxIsGreatest`.
- The `list` aggregate's `indexOf` compares arrays by reference. The model compares them by structure.
- Facts and aggregate groups are identified by structure, not by their printed form. Printed keys that collide in JavaScript are not modelled.
- The `$` patterns that `String.prototype.replace` interprets in a replacement string are not modelled.
- Variable names that clash with `Environment.prototype` members are not modelled.
- `Terms.AggregateGet`: names inherited from `Object.prototype` are not modelled. These are `toString`, `constructor`, `valueOf`, `hasOwnProperty`, `__proto__` and the like. The source's dictionaries are plain objects, so such a name is already defined in them:
  - `Aggregate.get` (datalog.js:282-288) accepts it and builds an aggregate without a function;
  - a rule whose canonical name is one of them gets no own key in the dependency graph (datalog.js:872-874), so no stratum holds it and `eval` never evaluates it.

  The model treats these names like any other. `Terms.AggregateGet` rejects them, and `Program.ComputeStrataOrders` places such a rule in a stratum.
- JavaScript object key order, and the tie-breaks it causes in the order of strata, are not modelled. No property depends on them.
- The guard at datalog.js:809 never fires, because `!x instanceof Value` is always false. The `built-in rule ... is not supported yet` throw at datalog.js:805 cannot be reached because every built-in is a `member` clause. Neither is modelled.
- Extra databases passed to `eval` (datalog.js:633-634) are left out. Callers concatenate the rules themselves.
- `Evaluation.EvalFailsOnlyWhenInvalid`: requires every `member` condition to have an argument. It also requires every stratum to be non-empty, which computed strata always are, and to hold either only plain rules or exactly one aggregate rule. Outside these shapes, the source throws a `TypeError` or fails its sanity check. The model returns `NoAggregateMap` or `SanityCheck` there, and this lemma does not cover those cases.
- `Evaluation.EvaluateStratum`: at a fixpoint the model proves that one more pass adds nothing, that every added fact is derived (`Derivations.EvaluateStratumSound`) and that the facts are closed under the rules (`Derivations.EvaluateStratumCloses`). It does not prove that the facts are the least model of the stratum.
- `Evaluation.FindNewFacts`: the search unifies conditions with the corrected `Variable.unify`, which skips binding a variable to itself. The source's version differs only against a candidate that still holds variables (`Unification.AsWrittenAgreesOnFacts`). There, where the source recurses without end and throws, the model goes on.
- `Names.CanonicalName`: rules, strata and the dependency graph are keyed by the corrected canonical name. The source's text replacement is `Names.CanonicalNameAsWritten`, and it differs only when a name holds `*` or a printed value holds `@` or `*` (`Names.AsWrittenAgrees`).
- `Names.CanonicalNameSeparatesScalars`: proved for one argument that is a string or a number. With arrays, or with several strings holding quotes and parentheses, different arguments can give the same name (`Names.ListNamedLikeString`, `Names.QuotedStringsClash`).
- `Unification.UnifyClausesWithFactSymmetric`: symmetry is proved only when one side's arguments are all values. When both sides hold variables, the two orders bind in opposite directions, and the model does not prove that they succeed alike.
- JavaScript booleans are not modelled: `Literal` has no `true` or `false` case.
- Strings are sequences of Unicode scalar values, while JavaScript strings are UTF-16 code units. `member` on a string with a character outside the Basic Multilingual Plane yields two facts in the source and one here. The default sort order of `list` also differs for characters U+E000 to U+FFFF against characters beyond U+FFFF.
- `Query.AddTransitiveDeps`: in JavaScript a stratum object is found by reference. The model refers to a stratum by its index.

## Findings

| source | as written | input that shows it | evidently intended | confidence | as-written member | corrected member |
|---|---|---|---|---|---|---|
| datalog.js:220-226 | `canonicalName` replaces the first `@` of the text built so far, so a value that prints with `@` receives the next argument inside it, and a `*` in a value turns into `@` | `p@@("a@b", 1)` and `p@@("a(1)b", X)` both become `p("a(1)b")@`; `p@("*")` and `p@("@")` both become `p("@")` | each placeholder of the original name receives its own argument | high, not executed | Names.AsWrittenSplicesIntoValue | Names.CanonicalNameSeparatesScalars |
| datalog.js:524-529 | `Variable.unify` binds an unbound variable to the other side even when that side is the variable itself, and later walks through it recurse without end | condition `p(B, B, B)` against head `p(X, X, X)`: the second pair binds `X` to `X`, and the third overflows the stack | unifying a variable with itself leaves the environment unchanged | high, not executed | Unification.SelfBindingDiverges | Unification.UnifyTermsSound |
| datalog.js:875-886 | `buildDependencyGraph` calls `unify` on a `Not` condition, which always throws, and the throw is swallowed, so negated conditions add no edge | `p :- r, ~q.  q :- r, ~p.  r.`: `p` and `q` land in different strata, so the same-stratum check for negation never fires; in `r.  q :- r.  p :- r, ~q.` nothing orders `q` before `p`, so `p` can be evaluated before `q` is known | a negated condition depends on the rules its clause unifies with | high, not executed | DepGraph.NegatedConditionsGiveNoEdges | DepGraph.BuildDependencyGraphBuilds |
