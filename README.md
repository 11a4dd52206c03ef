# Robinson resolution, DPLL and CNF conversion in Dafny

This project models three small logic engines from a Python teaching repository and proves what they promise.

- **Robinson resolution for first-order clauses** (`Week1/fol/robinson.py`).
  - A literal is a string such as `~P(x,f(A))`.
  - `unify` computes a most general unifier of two literals that have the same predicate and opposite signs, with an occurs check.
  - `robinson_resolution` saturates a knowledge base of clauses (frozensets of literal strings). Each round:
    - it renames every pair of clauses apart with fresh variables `v0, v1, …`;
    - it resolves every pair of literals the unifier accepts;
    - it stores each new resolvent with its variables renamed `x0, x1, …` (the canonical form).
  - The result is `UNSAT` when an empty resolvent appears (or an input clause is empty). It is `TIMEOUT` when a round adds nothing or the round budget runs out.
- **DPLL** (`Week1/prop_logic/dpll.py`).
  - Clauses are sets of literal strings `P` / `~P`.
  - The solver propagates unit clauses and pure literals, then branches on the first unassigned variable.
- **CNF conversion** (`Week1/prop_logic/to_cnf.py`): four rewrites.
  1. Eliminate implications.
  2. Push negations inward.
  3. Distribute Or over And.
  4. Flatten into a list of literal sets.

The Dafny modules follow the program's structure:

| module | file | contents |
|---|---|---|
| `Wrappers` | `wrappers.dfy` | `Option` |
| `Text` | `text.dfy` | `strip`, `find`, decimal `str`, the order `sorted` uses |
| `SplitArgs` | `split_args.dfy` | `split_args` |
| `Terms` | `terms.dfy` | term and literal datatypes; how the string convention is read (`parse_lit`, `is_var_term`, `is_func_term`, `func_parts`) and written back |
| `Substitution` | `substitution.dfy` | `apply_sub_term`, `apply_sub_lit` |
| `Unification` | `unification.dfy` | `occurs`, `unify_terms`, `unify` |
| `Renaming` | `renaming.dfy` | `vars_in_*`, `fresh_name`, `standardize_clause`, `standardize_pair`, `canonicalize` |
| `Resolution` | `resolution.dfy` | the main loop of `robinson_resolution` |
| `Dpll` | `dpll.dfy` | `dpll` |
| `Cnf` | `cnf.dfy` | `to_cnf` and its stages |

How the Python is modelled:

- **Terms are values.** They are a datatype `Var | Const | App`. `Terms.Decode` reads the lexical convention the source uses: a lower-case first letter and no `(` makes a variable; a `(` and a final `)` make a function term. `Terms.Encode` writes a term back without spaces, as `apply_sub_term` does. Two facts justify comparing terms where the source compares strings:
  - `Terms.DecodeEncode`: decoding the written form gives the term back;
  - `Terms.EncodeInjective`: different terms are written differently.
- **Substitutions have two applications.**
  - `Inst` is the simultaneous one.
  - `Resolve` is what `apply_sub_term` does: it follows chains of bound variables, stops at a name it has already visited, and rewrites a function term reached that way.
  - `Substitution.ResolveIsInst` shows the two agree on idempotent substitutions. Every substitution `unify` returns is idempotent.
- **Loops are methods.** Each loop of the source is a `method` with a `while` or `for` loop. Two kinds are told apart:
  - a loop that builds a value is proved equal to a specification function, and the properties are proved about that function. Examples are `SplitArgs.SplitArgs`, `Substitution.ChaseLoop`, `Unification.UnifyArgs`, `Renaming.CollectVars`, `Renaming.RenameClause`, `Dpll.Simplify` and `Resolution.InitialKb`;
  - a loop that drives a search carries its guarantees in its own `ensures`. Examples are `Dpll.FirstUnit`, `Dpll.PickVar`, `Dpll.Propagate`, `Resolution.RoundRow`, `Resolution.Round` and `Resolution.Saturate`.
  - A generator expression such as `any(len(c) == 0 for c in clauses)` is a predicate (`Resolution.HasEmptyClause`).
- **The run's mutable state is a value.** The dictionary `counter` shared by all calls of `standardize_clause` is passed in and returned as a `nat`. The growing `kb` and `produced` sets are local `set` variables, as in the source.
- **Python's set iteration order is left open.** `Resolution.ListOf` returns some listing of the set, and every postcondition holds whichever listing is chosen.

## Model

| member | source | states |
|---|---|---|
| Text.Find | Week1/fol/robinson.py:46 | `find("(")` is -1 exactly when there is no `(`; otherwise it is the index of the first `(` |
| Text.StripEnds | Week1/fol/robinson.py:39 | a stripped text is empty or begins and ends with a non-space character |
| Text.NatToStringInjective | Week1/fol/robinson.py:240-241 | different counter values give different decimal strings, so fresh names never repeat |
| Text.SortedMembers | Week1/fol/robinson.py:251 | `sorted(seen)` lists exactly the members of the set |
| Text.SortedIncreasing | Week1/fol/robinson.py:251 | `sorted(seen)` lists names in strictly increasing code-point order |
| SplitArgs.SplitArgs | Week1/fol/robinson.py:21-36 | the character loop returns exactly the stripped pieces between commas at nesting depth 0 |
| SplitArgs.SplitCount | Week1/fol/robinson.py:21-36 | there is one piece more than there are top-level commas |
| SplitArgs.PiecesJoin | Week1/fol/robinson.py:21-36 | joining the unstripped pieces with commas gives back the input: no character is lost |
| SplitArgs.PiecesOfJoin | Week1/fol/robinson.py:21-36 | splitting a comma-join of texts that are balanced at top level returns those texts |
| SplitArgs.MapStrip | Week1/fol/robinson.py:31-35 | every piece is stripped and the number of pieces is kept |
| Terms.VarsInTerm | Week1/fol/robinson.py:221-231 | `vars_in_term` lists exactly the variables of the term |
| Terms.VarsInLit | Week1/fol/robinson.py:233-238 | `vars_in_lit` lists exactly the variables of the literal's arguments |
| Terms.ReadCall | Week1/fol/robinson.py:51-64 | a written call is not a variable but a function term, and `func_parts` gives back its name and its argument texts |
| Terms.DecodeEncode | Week1/fol/robinson.py:51-71 | reading the written form of a well-formed term returns that term |
| Terms.EncodeInjective | Week1/fol/robinson.py:66-71 | two well-formed terms are written the same only when they are equal |
| Terms.ParseEncodeLit | Week1/fol/robinson.py:38-49 | `parse_lit` reads back every well-formed literal as the source writes it |
| Substitution.Chase | Week1/fol/robinson.py:72-75 | the chase stops at the start term or at one of the bound values, and always stops |
| Substitution.ChaseLoop | Week1/fol/robinson.py:72-75 | the `while` loop over `seen` ends at the term the chase specifies |
| Substitution.ApplySubTerm | Week1/fol/robinson.py:66-78 | `apply_sub_term` returns `Resolve(t, s)`, the chasing application, for every substitution whose bound function terms are free of bound variables |
| Substitution.ResolveIsInst | Week1/fol/robinson.py:66-78 | on an idempotent substitution the chase is simultaneous substitution |
| Substitution.ResolveNoBound | Week1/fol/robinson.py:66-78 | a term with no bound variable is returned unchanged |
| Substitution.InstIdempotent | Week1/fol/robinson.py:66-78 | applying an idempotent substitution twice is applying it once |
| Substitution.ApplySubLit | Week1/fol/robinson.py:215-219 | `apply_sub_lit` keeps the sign, predicate and arity, writes an argument list, and rewrites each argument by `apply_sub_term` |
| Substitution.SubLitIsInstLit | Week1/fol/robinson.py:215-219 | on an idempotent substitution `apply_sub_lit` is simultaneous substitution |
| Unification.Occurs | Week1/fol/robinson.py:80-89 | `occurs(v, t, s)` is true exactly when v is a variable of t after substitution |
| Unification.OccursCheck | Week1/fol/robinson.py:98-100 | no substitution unifies a variable with a different term that contains it, which is why the occurs check may fail the unification |
| Unification.Bind | Week1/fol/robinson.py:101-105 | binding x to t also replaces x by t inside every other binding, and the key set grows by x |
| Unification.ExtendIdempotent | Week1/fol/robinson.py:101-105 | the binding step keeps the substitution idempotent and adds no variable beyond x and those of t |
| Unification.BindSound | Week1/fol/robinson.py:98-114 | after the binding step both terms have the same instance, and the new substitution is an instance of the old one |
| Unification.BindComplete | Week1/fol/robinson.py:98-114 | any substitution that unifies the two terms and is an instance of the old substitution is an instance of the new one |
| Unification.Unifier | Week1/fol/robinson.py:91-127 | a result of `unify_terms` is idempotent, extends the given substitution and mentions only variables of the inputs; the substitution is unchanged when no key is added |
| Unification.UnifierSound | Week1/fol/robinson.py:91-127 | a returned substitution unifies the two terms |
| Unification.UnifierComplete | Week1/fol/robinson.py:91-127 | whenever some substitution unifies the two terms, `unify_terms` succeeds with a more general one: a most general unifier |
| Unification.UnifierArgs | Week1/fol/robinson.py:119-125 | the fold over argument pairs, with the same guarantees as for one pair |
| Unification.UnifierArgsSound | Week1/fol/robinson.py:119-125 | a returned substitution unifies the argument lists position by position |
| Unification.UnifierArgsComplete | Week1/fol/robinson.py:119-125 | whenever the argument lists are unifiable, the fold succeeds with a most general unifier |
| Unification.UnifyTerms | Week1/fol/robinson.py:91-127 | the recursive procedure returns the result `Unifier` specifies |
| Unification.UnifyArgs | Week1/fol/robinson.py:121-125 | the `zip` loop returns the result `UnifierArgs` specifies |
| Unification.LitUnifier | Week1/fol/robinson.py:129-141 | the result is None unless the literals have the same predicate, opposite signs and equal arity; any result is idempotent |
| Unification.LitUnifierSound | Week1/fol/robinson.py:129-141 | under the returned substitution the two literals become complementary |
| Unification.LitUnifierComplete | Week1/fol/robinson.py:129-141 | any substitution that makes the literals complementary is an instance of the returned one |
| Unification.Unify | Week1/fol/robinson.py:8-141 | `unify` on a pair of literals returns the result `LitUnifier` specifies |
| Renaming.PrefixedName | Week1/fol/robinson.py:240-241 | a name is its one-letter prefix followed by the counter in decimal; `fresh_name` uses the prefix `v` (`FreshName`), `canonicalize` the prefix `x` at line 269 (`CanonName`) |
| Renaming.NamesDistinct | Week1/fol/robinson.py:240-241 | different counters give different fresh names, different indices give different canonical names, and no `v` name is an `x` name |
| Renaming.CollectVars | Week1/fol/robinson.py:246-249 | the loop collects exactly the variables of the clause |
| Renaming.CollectSetVars | Week1/fol/robinson.py:262-265 | the loop collects exactly the variables of the clause set |
| Renaming.Least | Week1/fol/robinson.py:251 | finds the least name of a non-empty set |
| Renaming.SortNames | Week1/fol/robinson.py:251 | the names come out in sorted order |
| Renaming.Renamer | Week1/fol/robinson.py:250-253 | the mapping built from a name list has exactly those keys, sends the i-th name to the i-th new name and is safe for the chase |
| Renaming.FreshMapping | Week1/fol/robinson.py:250-253 | the sorted variables are mapped to `v<k>`, `v<k+1>`, …, and the counter advances by their number |
| Renaming.RenameClause | Week1/fol/robinson.py:256 | corrected (see Findings): each literal of the clause, in order, is renamed simultaneously by the mapping, where the source chases chains with `apply_sub_lit` |
| Renaming.Standardize | Week1/fol/robinson.py:245-256 | the counter advances by the number of distinct variables, and the clause keeps its length |
| Renaming.StandardizeClause | Week1/fol/robinson.py:245-256 | corrected (see Findings): `standardize_clause` returns the clause renamed simultaneously to fresh names, and the new counter |
| Renaming.StandardizeFresh | Week1/fol/robinson.py:245-256 | every variable of the result is a fresh name drawn between the old and the new counter |
| Renaming.StandardizeUndo | Week1/fol/robinson.py:245-256 | corrected (see Findings): renaming the fresh names back gives each original literal: the standardized clause is a variant of the input |
| Renaming.StandardizeApart | Week1/fol/robinson.py:258-259 | corrected (see Findings): two clauses standardized one after the other share no variable |
| Renaming.StandardizePair | Week1/fol/robinson.py:258-259 | corrected (see Findings): `standardize_pair` standardizes the first clause, then the second with the advanced counter, and the results share no variable |
| Renaming.StandardizeAsWritten | Week1/fol/robinson.py:245-256 | the code as written, with the renaming applied by the chase; the counter advances as in the corrected version |
| Renaming.AsWrittenAgrees | Week1/fol/robinson.py:245-256 | when no variable of the clause is one of the fresh names about to be drawn, the code as written gives the corrected result |
| Renaming.CanonicalClauseAgrees | Week1/fol/robinson.py:245-256 | on a clause whose variables are all `x` names, the code as written gives the corrected result |
| Renaming.StandardizeMergesVariables | Week1/fol/robinson.py:245-256 | as written, `P(v1,y)` at counter 0 becomes `P(v0,v0)`; the corrected renaming gives `P(v0,v1)` |
| Renaming.MergeLosesResolvent | Week1/fol/robinson.py:129-141 | `P(v0,v0)` does not unify with `~P(A,B)`, while `P(v0,v1)` does |
| Renaming.CanonMapping | Week1/fol/robinson.py:266-270 | the sorted variables are mapped to `x0`, `x1`, … |
| Renaming.CanonMap | Week1/fol/robinson.py:262-270 | the canonical mapping has exactly the variables of the clause set as keys and is safe for the chase |
| Renaming.ApplySubSet | Week1/fol/robinson.py:273 | every literal of the set is rewritten by `apply_sub_lit` |
| Renaming.Canonicalize | Week1/fol/robinson.py:261-273 | `canonicalize` returns the canonical form, and the set unchanged when it has no variable |
| Renaming.CanonicalNonEmpty | Week1/fol/robinson.py:261-273 | the canonical form of a non-empty clause is non-empty |
| Renaming.CanonicalVars | Week1/fol/robinson.py:261-273 | the canonical form uses only the names `x0` … `x(n-1)`, where n is the number of variables |
| Renaming.CanonicalIsRenaming | Week1/fol/robinson.py:261-273 | when no variable is already an `x` name, the canonical form is the simultaneous renaming |
| Renaming.CanonicalUndo | Week1/fol/robinson.py:261-273 | renaming the `x` names back gives each original literal: the renaming loses nothing |
| Resolution.RestImageOf | Week1/fol/robinson.py:301-307 | the loop collects every literal but the resolved one, each rewritten by the unifier |
| Resolution.ResolventAt | Week1/fol/robinson.py:294-307 | a pair of literals yields a resolvent exactly when `unify` accepts it |
| Resolution.ResolvedLiteralsClash | Week1/fol/robinson.py:294-307 | under the unifier the two resolved literals become complementary |
| Resolution.ResolventEmpty | Week1/fol/robinson.py:301-310 | the resolvent is empty exactly when the literals unify and each clause consists of nothing but its resolved literal |
| Resolution.StdPair | Week1/fol/robinson.py:292 | the standardized pair shares no variable, and the counter advances by both clauses' variable counts |
| Resolution.ListOf | Week1/fol/robinson.py:284 | `list(kb)` lists every clause exactly once, in an order left open |
| Resolution.ResolveRow | Week1/fol/robinson.py:294-314 | one row of the literal loops records only new canonical resolvents; it stops on an empty resolvent, or else every pair in the row is handled |
| Resolution.ResolveLists | Week1/fol/robinson.py:294-314 | it stops only on an empty resolvent; otherwise every resolvent is non-empty and its canonical form is in kb or produced |
| Resolution.ResolvePair | Week1/fol/robinson.py:289-314 | the same for one pair of kb clauses after standardizing them apart, and the counter advances as `standardize_pair` says |
| Resolution.RoundRow | Week1/fol/robinson.py:288-314 | pairs (i, j) with j > i: stops on an empty resolvent of two distinct clauses, else every pair is covered and only resolvents are added |
| Resolution.Round | Week1/fol/robinson.py:284-315 | a round either finds an empty resolvent of two distinct kb clauses, or covers every pair of distinct clauses and adds only canonical resolvents that are not yet in kb |
| Resolution.RoundDerivable | Week1/fol/robinson.py:316-319 | `kb \|= produced` adds only clauses derivable in one more round |
| Resolution.ListedCanonicalAgrees | Week1/fol/robinson.py:289-292 | inside the main loop, standardizing a listed kb clause as written gives the corrected result |
| Resolution.InitKb | Week1/fol/robinson.py:278-281 | the initial kb has at most one clause per input clause |
| Resolution.InitKbNoEmpty | Week1/fol/robinson.py:275-281 | once the check at line 275 has passed, the initial kb holds no empty clause |
| Resolution.SoundAdditionNoEmpty | Week1/fol/robinson.py:308-318 | an empty resolvent ends the run before it is stored, so `kb \|= produced` never adds the empty clause |
| Resolution.InitialKb | Week1/fol/robinson.py:278-281 | corrected (see Findings): the loop builds the initial kb, each input clause standardized by the simultaneous renaming, then canonicalized |
| Resolution.Advance | Week1/fol/robinson.py:319 | `kb \|= produced` after a round that produced something extends the history by one round step and keeps the loop facts: kb grows by at least one clause, every clause is derivable in one more round, and no empty clause appears |
| Resolution.SaturatedOfEmptyRound | Week1/fol/robinson.py:316-317 | a round that covered every pair and produced nothing leaves kb saturated, which is what the TIMEOUT of line 317 means |
| Resolution.Saturate | Week1/fol/robinson.py:283-321 | kb only grows, by at least one clause a round; the ghost history `hist` lists the kb before each round and after the last: it starts at the initial kb, has one entry more than there were rounds that grew kb, ends at the final kb, and each round step strictly grows kb, adds only canonical forms of non-empty resolvents of two distinct clauses of the kb before it, none of them already there, and stores in the next kb the non-empty canonical resolvents of every pair of distinct clauses of the kb before it; every clause is derivable in the rounds run; there are at most `max_iterations` rounds; UNSAT only before the budget is spent, and with an empty resolvent of two kb clauses; kb never holds the empty clause when the initial kb does not; TIMEOUT only when the budget is spent or kb is saturated |
| Resolution.RobinsonResolution | Week1/fol/robinson.py:144-321 | an empty input clause gives UNSAT; otherwise kb never holds the empty clause, and the answers have the meanings `Saturate` gives, relative to the initial kb: the history of round steps from the initial kb to the final one, UNSAT only within the budget, TIMEOUT only when the budget is spent or kb is saturated |
| Dpll.LitVar | Week1/prop_logic/dpll.py:11-15 | a literal is its variable, with `~` in front exactly when its polarity is false |
| Dpll.SatBadLits | Week1/prop_logic/dpll.py:17-21 | `sat_l` and `bad_l` are the variable with the assigned and the opposite polarity |
| Dpll.Simplified | Week1/prop_logic/dpll.py:17-33 | no clause of the result mentions `sat_l` or `bad_l`, the list does not grow, and it shrinks when some clause is satisfied |
| Dpll.Simplify | Week1/prop_logic/dpll.py:17-33 | the loop returns the simplified clause list |
| Dpll.SimplifiedElems | Week1/prop_logic/dpll.py:17-33 | the result is exactly the clauses without `sat_l`, each with `bad_l` removed |
| Dpll.SimplifiedVars | Week1/prop_logic/dpll.py:17-33 | simplification removes the assigned variable and adds none |
| Dpll.SimplifyBack | Week1/prop_logic/dpll.py:17-33 | an assignment that makes `sat_l` true and satisfies the simplified list satisfies the original |
| Dpll.SimplifyForward | Week1/prop_logic/dpll.py:17-33 | an assignment that does not make `bad_l` true and satisfies the original satisfies the simplified list |
| Dpll.HasEmptyClause | Week1/prop_logic/dpll.py:38-40 | finds an empty clause exactly when there is one |
| Dpll.EmptyClauseUnsat | Week1/prop_logic/dpll.py:38-40 | a clause list containing an empty clause is unsatisfiable |
| Dpll.FirstUnit | Week1/prop_logic/dpll.py:45-49 | returns the literal of the first unit clause (no earlier clause has exactly one literal), or reports that no clause has exactly one literal |
| Dpll.UnitComplete | Week1/prop_logic/dpll.py:51-57 | every model agrees with the value a unit clause forces, so assigning it keeps the clauses satisfiable |
| Dpll.PureLiteral | Week1/prop_logic/dpll.py:65-86 | returns a variable that occurs unassigned with one polarity only, positive ones first, or reports that there is none |
| Dpll.PureComplete | Week1/prop_logic/dpll.py:80-91 | giving a pure literal its polarity keeps the clauses satisfiable |
| Dpll.PickVar | Week1/prop_logic/dpll.py:102-110 | returns an unassigned variable of the first clause that has one (every earlier clause is fully assigned), or reports that all variables are assigned |
| Dpll.StuckPickIsPlain | Week1/prop_logic/dpll.py:65-110 | once neither rule applies, every unassigned variable occurs with both polarities, so the variable picked does not begin with `~` |
| Dpll.BranchComplete | Week1/prop_logic/dpll.py:115-122 | if the clauses are satisfiable, then so is one of the two branches on `pick` |
| Dpll.Propagate | Week1/prop_logic/dpll.py:42-100 | the propagation loop ends Solved with a model, Conflict only when no extension of the assignment satisfies the clauses, or Stuck with an equisatisfiable non-empty list in which every unassigned variable occurs with both polarities |
| Dpll.Solve | Week1/prop_logic/dpll.py:1-122 | an empty list gives true; an empty clause gives (false, {}); a true answer extends the input assignment and, when that assignment binds none of the clauses' variables, satisfies every clause, whatever the variable names; a false answer means, for clause lists with no variable named `~…`, that no extension of the input assignment satisfies them |
| Cnf.RemImplies | Week1/prop_logic/to_cnf.py:37-49 | the result contains no implication and has the same variables; formulas without implications are unchanged |
| Cnf.RemImpliesPreservesEval | Week1/prop_logic/to_cnf.py:37-49 | implication elimination keeps the truth value under every valuation |
| Cnf.NegationPush | Week1/prop_logic/to_cnf.py:51-71 | an implication-free formula comes out in negation normal form, with no new variables |
| Cnf.NegationPushPreservesEval | Week1/prop_logic/to_cnf.py:51-71 | negation pushing keeps the truth value under every valuation |
| Cnf.OrDistribution | Week1/prop_logic/to_cnf.py:73-91 | distribution never increases the weight that measures its termination |
| Cnf.OrDistributionCnf | Week1/prop_logic/to_cnf.py:73-91 | on negation normal form, distribution yields conjunctive normal form |
| Cnf.OrDistributionShape | Week1/prop_logic/to_cnf.py:73-91 | distribution introduces no implication and no new variable |
| Cnf.OrDistributionPreservesEval | Week1/prop_logic/to_cnf.py:73-91 | distribution keeps the truth value under every valuation |
| Cnf.GetLiterals | Week1/prop_logic/to_cnf.py:100-106 | every clause has at least one literal |
| Cnf.GetLiteralsEval | Week1/prop_logic/to_cnf.py:100-106 | some literal of the set holds exactly when the disjunction is true |
| Cnf.Clauses | Week1/prop_logic/to_cnf.py:93-97 | the result has at least one literal set |
| Cnf.ClausesEval | Week1/prop_logic/to_cnf.py:93-97 | every literal set has a true literal exactly when the CNF formula is true |
| Cnf.ToCnf | Week1/prop_logic/to_cnf.py:109-117 | `to_cnf` returns at least one clause |
| Cnf.ToCnfCorrect | Week1/prop_logic/to_cnf.py:109-117 | the returned clauses, read as a conjunction of disjunctions, hold exactly when the input formula is true |

## Findings

| source | as written | input that shows it | evidently intended | confidence | as-written member | corrected member |
|---|---|---|---|---|---|---|
| Week1/fol/robinson.py:245-256 | `standardize_clause` applies its renaming with `apply_sub_lit`, which chases chains. A clause variable that is itself one of the fresh names being handed out is renamed twice, and two distinct variables merge. | `robinson_resolution([["P(v1,y)"], ["~P(A,B)"]])`: counter 0 maps v1 to v0 and y to v1, and y chases on to v0, so the first clause becomes `P(v0,v0)`. That literal does not unify with `~P(A,B)`, so the empty clause is never derived and the answer is TIMEOUT instead of UNSAT. | a simultaneous renaming, which gives `P(v0,v1)` and a clause that is a variant of the input | not executed; likely | Renaming.StandardizeAsWritten, Renaming.StandardizeMergesVariables, Renaming.MergeLosesResolvent | Renaming.Standardize, Renaming.StandardizeApart, Renaming.StandardizeUndo, Renaming.AsWrittenAgrees |

The rest of the model uses the corrected `Standardize`. Inside the main loop every kb clause carries `x` names only. There the code as written and the corrected version coincide (`Renaming.CanonicalClauseAgrees`, `Resolution.ListedCanonicalAgrees`), so the discrepancy enters only through how the initial kb is built. It can still change the final answer: on the input above the model answers UNSAT where the source answers TIMEOUT.

## Left out

- The `_UNIFY_PAIR` global (`Week1/fol/robinson.py:15-19, 296`): `Unification.Unify` takes the two literals as parameters instead.
- The copies of `split_args`, `parse_lit`, `is_var_term`, `is_func_term`, `func_parts` and `apply_sub_term` inside `robinson_resolution` (`Week1/fol/robinson.py:156-213`) are textually identical to those in `unify`. They are modelled once.
- Strings versus terms: the model works on decoded terms and literals, not on the raw strings.
  - Equality of literals stands for equality of their strings. This is exact for text the source itself writes (`Terms.DecodeEncode`, `Terms.EncodeInjective`).
  - A ground input literal written with spaces, such as `P(A, B)`, reaches kb unnormalized in the source, because `canonicalize` returns a variable-free set as it is. Such a literal differs as a string from `P(A,B)` but not as a `Lit`.
  - Malformed strings (unbalanced parentheses, an empty argument) are outside the model.
- `Text.IsLower`: `str.islower` is modelled for ASCII letters only; other Unicode lower-case letters are not variables in the model.
- `Substitution.ApplySubTerm`: it requires that the bound function terms of the substitution contain no bound variable. Without that, the chase in the source can recurse without end. Every substitution the source builds meets the requirement: idempotent unifiers and renamings to variables.
- `Resolution.RobinsonResolution`: the `proof` list is always empty in the source, so the model returns only the answer. The final kb, the kb after each round and the number of rounds are ghost outputs, used to state the guarantees.
- `Resolution.Saturate`:
  - `Derivable` and `PairResolvent` quantify over every listing of a clause and every counter value, not over the one order CPython happens to use;
  - first-order semantic soundness (that UNSAT implies unsatisfiability in every interpretation) is not stated. The model proves instead that the empty clause was resolved from two derived clauses, by a most general unifier.
  - the coverage each round step promises holds for the listing and counter that round used. That another listing or counter gives the same resolvents up to renaming is not proved.
- `Resolution.InitialKb`, `Resolution.RobinsonResolution`: the initial kb is built with the corrected `Standardize` (see Findings), not with the chasing `apply_sub_lit` of line 256. When an input clause has a variable named `v<k>`, the initial kb, and so the final answer, can differ from the source's: on the Findings input the model answers UNSAT and the source TIMEOUT. Inside the main loop the two renamings coincide.
- That `canonicalize` identifies clauses that are variants of each other is not claimed: it does not do so in general.
- `Dpll.Solve`: that a true answer satisfies the clauses is stated only when the caller's assignment leaves the clauses' variables unassigned. This holds for every call the solver itself makes, and for the default empty assignment. With `dpll([{"P","Q"}], {"P": False, "Q": False})` the source reaches line 113 and returns True without checking the clauses.
- `Dpll.Solve`, `Dpll.Propagate`: that a false answer means unsatisfiability is stated for clause lists whose variable names do not begin with `~` (`WellFormed`). A variable named `~P` is indistinguishable from the negation of `P`. A true answer needs no such premise.
- `Dpll.Solve`: the default `assignment=None` (`Week1/prop_logic/dpll.py:1, 7-8`) is not a separate case; a caller that omits it passes the empty map `map[]`. The copy at line 9 needs no modelling, since maps are values.
- `Resolution.RobinsonResolution`: the default `max_iterations=1000` (`Week1/fol/robinson.py:144`) is not a separate case; a caller that omits it passes 1000.
- `Cnf.ToCnfCorrect`: requires that no variable name begins with `~`, for the same reason.
- `Dpll.PureLiteral`: `next(iter(...))` picks an unspecified element of the set. The model picks any element and proves the guarantees for every choice.
- The JSON, `os` and `sys` imports of `to_cnf.py`, and the unreachable `raise` after its `return`, have no behaviour to model.
