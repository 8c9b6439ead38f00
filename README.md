# A verified model of three course assignments

This project is a Dafny model of the core of three C++ homework assignments.

- **hw1 / `shared_ptr.h`**: a reference-counted smart pointer. The model is the class `SharedPointer.SharedPtr`: a stored pointer and a heap-allocated `Counter` that every owner updates in place. A ghost log records what `delete` frees.
- **hw1 / `mafia.cc`**: the rules of a computer-played Mafia game (module `Mafia`). The model covers:
  - dealing the roles;
  - the end-of-game decision;
  - the computer players' votes and night actions, with the Sheriff's and the Doctor's memories;
  - the order in which a night's kills and cure take effect.

  The class `Mafia.Game` holds the players, a sequence of `(id, role, alive)` values, and the day counter. Its methods update both in place.
- **hw2 / `scheduling.h`**: the job-scheduling problem (module `Scheduling`). A solution is a processor × work boolean matrix with the work durations. The model covers its constructors, `criterion`, `get_schedule` and the mutation.
- **hw2 / `annealing.h`**: the simulated-annealing engine (module `Annealing`). The model covers:
  - the three cooldown laws;
  - one worker's trajectory (`thread_payload`);
  - the generation loop (`run`) of the class `Annealing.Annealer`.
- **hw3 / `basic_func.h`, `binops.h`, `factory.h`**: differentiable functions of one variable (module `Functions`). The model covers:
  - the expression tree and its values and derivatives;
  - the polynomial's Horner evaluation, derivative loop and `ToString`;
  - the binary-operator nodes and the name-based factory.

The C++ loops are Dafny methods with loop invariants. Each method is proved against a function that defines what it computes, and the properties the code promises are proved about those functions as lemmas. Random choices are parameters. The preconditions state which draws end a retry loop. The floating-point functions (`exp`, `pow`, `log`, division by zero and printing a `double`) are uninterpreted parameters.

## Model

| member | source | states |
|---|---|---|
| Scheduling.InitialIsPartition | hw2/scheduling.h:43-51 | the initial matrix holds every work on the drawn processor `proc` alone, so each work is on exactly one processor |
| Scheduling.NewSolution | hw2/scheduling.h:39-52 | the constructor's loops build `nProc` rows of `|workTimes|` cells: row `proc` all true, every other row all false, durations copied |
| Scheduling.FromFile | hw2/scheduling.h:54-83 | a file that cannot be opened fails with "can't open file"; otherwise appending every number to row `proc` and padding the empty rows gives exactly the solution the first constructor builds |
| Scheduling.Criterion | hw2/scheduling.h:85-115 | the two nested loops return the largest row load minus the smallest per-row heaviest duration; `cur_min` keeps each row's largest duration |
| Scheduling.HeaviestAtMostLoad | hw2/scheduling.h:98-102 | a row's heaviest marked duration never exceeds the row's summed load |
| Scheduling.HeaviestIsLargest | hw2/scheduling.h:93-103 | a row's `cur_min` bounds every marked duration from above and is one of them, or 0 for an empty row |
| Scheduling.MaxLoadIsLargest | hw2/scheduling.h:89-112 | the running `max` is at least every row's load and equals some row's load |
| Scheduling.MinHeaviestIsSmallest | hw2/scheduling.h:86-107 | the running `min` is at most every row's heaviest duration and equals one of them |
| Scheduling.CriterionNonNegative | hw2/scheduling.h:98-114 | with at least one processor the criterion is never negative |
| Scheduling.CriterionWithoutRows | hw2/scheduling.h:86-114 | with no processor the criterion is `0 - DBL_MAX` |
| Scheduling.MarkedExactly | hw2/scheduling.h:125-129 | the collected works are exactly the marked indices of the row, in increasing order |
| Scheduling.InsertByTime | hw2/scheduling.h:131-134 | inserting a work into a list sorted by decreasing duration adds exactly that work and keeps the list sorted |
| Scheduling.InsertKeepsOrder | hw2/scheduling.h:131-134 | inserting a work after every longer-or-equal work keeps durations non-increasing |
| Scheduling.SortByTime | hw2/scheduling.h:131-134 | the sort with comparator `times[i] > times[j]` yields a permutation of its input with non-increasing durations |
| Scheduling.GetSchedule | hw2/scheduling.h:117-138 | one list per processor, holding exactly the works marked in its row, ordered by non-increasing duration |
| Scheduling.ProcessorWorks | hw2/scheduling.h:122-135 | the per-processor body lists exactly the row's works, sorted by duration |
| Scheduling.SameWorksAsMarked | hw2/scheduling.h:125-134 | any permutation of the collected works holds exactly the marked works |
| Scheduling.FirstHolder | hw2/scheduling.h:158-165 | the `src` loop stops at the first processor that holds the work |
| Scheduling.Mutate | hw2/scheduling.h:140-175 | the input is only copied; with at most one processor the copy is returned unchanged; otherwise the work leaves its first holder for `dst`, and every other cell, the dimensions and the durations are unchanged |
| Scheduling.PartitionAfterMove | hw2/scheduling.h:171-172 | moving one work between two distinct processors keeps every work on exactly one processor |
| Annealing.GetTemp | hw2/annealing.h:81-113 | all three cooldown laws return `temp0` at iteration 0, and a positive `temp0` gives a positive temperature |
| Annealing.CauchyDecreasing | hw2/annealing.h:94-99 | the Cauchy temperature strictly decreases along the iterations |
| Annealing.BoltzmannDecreasing | hw2/annealing.h:81-86 | the Boltzmann temperature strictly decreases from iteration 1 on, given that the logarithm increases |
| Annealing.LogCauchyRisesAtTwo | hw2/annealing.h:107-113 | the LogCauchy temperature is not monotone: it rises from iteration 1 to iteration 2 |
| Annealing.StartWalk | hw2/annealing.h:120-126 | a worker starts with current = best = the engine's best, with their criteria cached and the stall counter at 0 |
| Annealing.Step | hw2/annealing.h:129-146 | one iteration always accepts a candidate that is no worse, keeps `crit_best` equal to `sol_best`'s criterion and never increasing, and resets the stall counter exactly on strict improvement, otherwise increments it |
| Annealing.TrajectoryEnd | hw2/annealing.h:128-147 | the worker loop ends exactly with 10 non-improving steps, and its best is no worse than where it started |
| Annealing.WorkerNoWorse | hw2/annealing.h:120-150 | the solution a worker contributes is no worse than the engine's best it started from |
| Annealing.MinElement | hw2/annealing.h:171-174 | the reduction returns the first index whose criterion is minimal |
| Annealing.LocalsAreWorkerBests | hw2/annealing.h:163-169 | `k` workers leave exactly `k` entries in `locals`, entry `j` being the best solution worker `j` found |
| Annealing.Generation | hw2/annealing.h:162-185 | one generation replaces `best` only by a strictly better worker result, which is no worse than every worker's result; otherwise it keeps `best` and increments the stall counter |
| Annealing.ConvergeEnd | hw2/annealing.h:162-186 | the generation loop ends exactly when the stall counter reaches 10, and never loses ground |
| Annealing.AnnealNoWorse | hw2/annealing.h:153-188 | `run` never returns a solution worse than the initial one |
| Annealing.Annealer.constructor | hw2/annealing.h:41-46 | a new engine has no best solution and no collected results |
| Annealing.Annealer.ThreadPayload | hw2/annealing.h:116-151 | the loop computes the worker's trajectory, and exactly one entry, its best, is appended to `locals` |
| Annealing.Annealer.Run | hw2/annealing.h:153-189 | the loop returns the result of the generations run until 10 stall in a row; `best` is that result and `locals` is empty |
| SharedPointer.SharedPtr.Empty | hw1/shared_ptr.h:127-131 | the null constructor stores nothing and no counter |
| SharedPointer.SharedPtr.FromRaw | hw1/shared_ptr.h:133-146 | a non-null pointer gets a fresh counter holding 1; a null pointer gets no counter |
| SharedPointer.SharedPtr.Copy | hw1/shared_ptr.h:148-163 | the copy shares the pointer and the counter, and the shared count grows by exactly one |
| SharedPointer.SharedPtr.Move | hw1/shared_ptr.h:165-182 | the new instance takes over the pointer and the counter with the count unchanged, and the source is left empty |
| SharedPointer.SharedPtr.Acquire | hw1/shared_ptr.h:102-110 | with a stored pointer, creates a counter at 1 if there is none, else increments it; with none, changes nothing |
| SharedPointer.SharedPtr.Release | hw1/shared_ptr.h:113-125 | decrements the counter and frees the element and the counter when this was the last owner (or there was no counter); the instance is empty afterwards |
| SharedPointer.SharedPtr.Destroy | hw1/shared_ptr.h:184-187 | the destructor has exactly the effect of `release` |
| SharedPointer.SharedPtr.Assign | hw1/shared_ptr.h:189-217 | assigning an instance with the same pointer changes nothing; otherwise the old object is released and the new one shared with its count grown by one |
| SharedPointer.SharedPtr.MoveAssign | hw1/shared_ptr.h:219-239 | the old object is released, the source's pointer and counter are taken over, and the source is left empty |
| SharedPointer.SharedPtr.UseCount | hw1/shared_ptr.h:241-248 | the count is 0 exactly for an empty pointer and otherwise the shared counter's value |
| SharedPointer.SharedPtr.Get | hw1/shared_ptr.h:250-257 | the stored pointer is null exactly when the use count is 0 |
| SharedPointer.SharedPtr.Reset | hw1/shared_ptr.h:280-284 | `reset()` has exactly the effect of `release` |
| SharedPointer.SharedPtr.ResetTo | hw1/shared_ptr.h:286-300 | releases the old object, then owns `p` with a fresh counter at 1 (no counter for null) |
| SharedPointer.SharedPtr.Swap | hw1/shared_ptr.h:302-312 | exchanges both fields of the two instances and changes no count |
| SharedPointer.SharedPtr.IsSet | hw1/shared_ptr.h:314-317 | true exactly when a pointer is stored, that is, when the use count is positive |
| SharedPointer.SharedPtr.Equals | hw1/shared_ptr.h:319-323 | compares the stored pointers, so an instance equals itself |
| SharedPointer.SharedPtr.EqualsNull | hw1/shared_ptr.h:325-328 | equal to null exactly when no pointer is stored |
| SharedPointer.SharedPtr.CompareNull | hw1/shared_ptr.h:339-345 | never `less`; `greater` exactly when a pointer is stored, `equal` exactly when it is not |
| Mafia.FactionOf | hw1/mafia.cc:304-310 | Civilians, Sheriffs and Doctors count as civilians, Mafiosi as mafia, the Maniac alone |
| Mafia.SetAlive | hw1/mafia.cc:186-198 | kill or cure changes only the `alive` flag of the target player |
| Mafia.DealMafiosi | hw1/mafia.cc:137-142 | exactly the first `n >> 2` picked seats hold Mafiosi, so there are `n >> 2` of them |
| Mafia.DealSpecials | hw1/mafia.cc:144-157 | exactly one Sheriff, one Doctor and one Maniac, each on the seat picked for it |
| Mafia.DealCivilians | hw1/mafia.cc:159-164 | every seat not picked holds a Civilian, `n - (n >> 2) - 3` of them |
| Mafia.Game.constructor | hw1/mafia.cc:130-164 | the dealing loops produce the dealt players, each knowing its seat number, all alive, on day 0 |
| Mafia.Judge | hw1/mafia.cc:313-327 | draw exactly when nobody is alive; civilians win exactly when no Mafioso and no Maniac live but someone does; the Maniac wins exactly when it lives, no Mafioso does and at most one civilian does; the mafia wins exactly when the Maniac is dead and Mafiosi are at least the civilians; a living Mafioso with a living Maniac never ends the game |
| Mafia.FactionsPartition | hw1/mafia.cc:301-311 | every living player is counted on exactly one side |
| Mafia.NobodyLiving | hw1/mafia.cc:301-313 | the living count is 0 exactly when every player is dead |
| Mafia.DrawnIffNobodyAlive | hw1/mafia.cc:313-315 | the game is drawn exactly when nobody is alive |
| Mafia.CiviliansCounted | hw1/mafia.cc:304-310 | the civilian count is the number of living Civilians, Sheriffs and Doctors |
| Mafia.Game.Finished | hw1/mafia.cc:293-334 | the counting loop returns the verdict of the counts, and `true` exactly when the game is over |
| Mafia.DealSound | hw1/mafia.cc:90-94 | a freshly dealt Sheriff's memory is consistent with the table |
| Mafia.RoleSoundTransfer | hw1/mafia.cc:513-518 | the memories stay consistent as long as nobody's role kind changes |
| Mafia.SheriffVoteAsWritten | hw1/mafia.cc:412-426 | as written: with `has_target` set, the vote is `last_checked`, whoever that is; otherwise the random pick |
| Mafia.SheriffVote | hw1/mafia.cc:412-426 | corrected: the vote is for a living player other than the Sheriff, and for the target only while it is alive |
| Mafia.VoteAsWritten | hw1/mafia.cc:377-426 | as written: a dead player does not vote; nobody votes for itself; a Mafioso votes for a living non-Mafioso; every other vote names a living player, except that a Sheriff with `has_target` set votes for its target, a Mafioso that may be dead, without drawing |
| Mafia.Vote | hw1/mafia.cc:377-426 | corrected (with `SheriffVote`): every vote names a living player other than the voter, and a Mafioso never votes for a Mafioso |
| Mafia.SheriffAct | hw1/mafia.cc:451-520 | the Sheriff shoots exactly when its target is alive; otherwise it forgets the target and checks the pick, remembering a Mafioso as its target and anyone else as cleared |
| Mafia.Act | hw1/mafia.cc:428-567 | a dead player does nothing; a Civilian never acts; every night target is alive; Mafiosi never target Mafiosi, the Maniac never targets itself, the Sheriff only shoots a Mafioso; the Doctor never cures the same player two nights running and remembers its patient |
| Mafia.Outcomes | hw1/mafia.cc:234-242 | every player acts on the state at nightfall: only living players name someone, every name is a living player, roles keep their kind and memories stay consistent |
| Mafia.FirstResultOf | hw1/mafia.cc:260-285 | the `front()` of the filtered results: the result of the first player of the given role who named someone, every earlier such player having named nobody, or none when no such player did |
| Mafia.ResolveAt | hw1/mafia.cc:244-285 | after the mafia, Maniac and Sheriff kills and then the cure, a player is alive exactly when cured, or alive before and not a victim |
| Mafia.NightOutcome | hw1/mafia.cc:234-285 | after a night every player keeps its seat and takes its new memory, and is alive exactly when the Doctor cured it, or it was alive and nobody killed it |
| Mafia.NightNeverRevives | hw1/mafia.cc:278-285 | nobody comes back to life at night: the Doctor only cures a living player |
| Mafia.CuredSurvives | hw1/mafia.cc:254-285 | because the cure comes last, the Doctor's patient is alive at the end of the night |
| Mafia.MafiaVictim | hw1/mafia.cc:244-258 | the mafia kills only when some Mafioso named a victim, and that victim is a living non-Mafioso |
| Mafia.NightSound | hw1/mafia.cc:234-285 | the night keeps every memory consistent |
| Mafia.Game.Night | hw1/mafia.cc:234-285 | the night phase updates the memories and applies the kills and the cure in the program's order |
| Mafia.VotesAsWritten | hw1/mafia.cc:207-209 | as written: exactly the living players vote, never for themselves, and a vote for a dead player comes only from a Sheriff voting for its remembered target |
| Mafia.CountVotes | hw1/mafia.cc:207-215 | the loop `++votes[vote]` maps exactly the players who received a vote to the number of votes against them |
| Mafia.DayKicksVotedPlayer | hw1/mafia.cc:211-222 | as written: the kicked player is a seat someone voted for, and if it was already dead a living Sheriff had it as its target |
| Mafia.DayMayKickTheDead | hw1/mafia.cc:207-222 | as written: in a sound five-player game that goes on (the Civilian kicked on day 1, the checked Mafioso killed by the Maniac on night 1), the Sheriff votes for its dead target, the Doctor for the Maniac and the Maniac for the Doctor; in the three-way tie `max_element` may kick out the dead target |
| Mafia.Votes | hw1/mafia.cc:207-209 | corrected: exactly the living players vote, each for another living player |
| Mafia.DayKicksLivingPlayer | hw1/mafia.cc:211-222 | corrected: the player kicked out was alive, and only its flag changes |
| Mafia.Game.Day | hw1/mafia.cc:200-222 | the day counter grows by one; the returned map tallies the as-written votes, the kicked player has the most votes and is marked dead |
| Mafia.SheriffCheckStuck | hw1/mafia.cc:495-501 | as written: in the six-player state after three days (Mafioso and both Civilians dead; Sheriff, Doctor and Maniac alive, the Doctor and the Maniac cleared) the game goes on, yet no pick ends the Sheriff's retry loop, while the corrected check accepts one |
| Mafia.CorrectedSheriffCanPick | hw1/mafia.cc:495-501 | corrected: in every game that goes on the Sheriff's check has a pick, and while an unchecked player is left it accepts exactly the program's picks |
| Mafia.SheriffVotesForTheDead | hw1/mafia.cc:412-416 | after the Sheriff shoots its target, the target is dead but the as-written Sheriff still votes for it next day |
| Functions.Leaves | hw3/basic_func.h:26-83 | the leaf values and derivatives the unit tests check: `x` has value `x` and derivative 1, a constant has derivative 0, `e^x` is its own derivative, `x^p` has derivative `p * x^(p-1)`; these unfold the definitions, and the real partner of the leaves is `PolynomialTreeCalculus` |
| Functions.LeafTexts | hw3/basic_func.h:28-76 | the texts `x`, the printed constant, `e^x` and `x^` followed by the printed exponent; these unfold `Render`, and the polynomial text has its format proved by `LeadingTermFormat` and `NextTermFormat` |
| Functions.HornerAppend | hw3/basic_func.h:92-101 | a coefficient appended at the top adds its term to Horner's value |
| Functions.HornerIsSum | hw3/basic_func.h:92-101 | Horner's rule equals the sum of `coef[i] * x^i` |
| Functions.PolynomialValue | hw3/basic_func.h:92-101 | the evaluation loop returns the sum of `coef[i] * x^i` |
| Functions.DerivCoef | hw3/basic_func.h:160-173 | the derivative has one coefficient less, and none for an empty list |
| Functions.WeightedAt | hw3/basic_func.h:167-170 | the derivative's coefficient of degree `i - 1` is `i * coef[i]` |
| Functions.DerivHornerStep | hw3/basic_func.h:167-170 | one iteration of the derivative loop extends the Horner suffix of the derivative by one degree |
| Functions.PolynomialDeriv | hw3/basic_func.h:160-173 | the derivative loop returns the value of the formal derivative, and 0 for fewer than two coefficients |
| Functions.AddValue | hw3/binops.h:30-32 | adding coefficient lists adds values |
| Functions.ScaleValue | hw3/binops.h:72-74 | scaling a coefficient list scales its value |
| Functions.MulValue | hw3/binops.h:72-74 | the product of coefficient lists has the product of values |
| Functions.DerivCoefAt | hw3/basic_func.h:167-170 | the coefficient of degree `k` of the derivative is `(k + 1) * coef[k + 1]` |
| Functions.DerivCoefAdd | hw3/binops.h:40-42 | differentiation is additive on coefficient lists |
| Functions.DerivCoefScale | hw3/binops.h:82-84 | differentiation commutes with scaling by a constant |
| Functions.AddDeriv | hw3/binops.h:40-42 | the sum rule for polynomials |
| Functions.ScaleDeriv | hw3/binops.h:82-84 | the constant-factor rule for polynomials |
| Functions.ProductRule | hw3/binops.h:82-84 | the product rule for polynomials, with the products named |
| Functions.MulDeriv | hw3/binops.h:82-84 | the product rule `(a * b)' = a' * b + a * b'` for polynomials |
| Functions.DiffValue | hw3/binops.h:51-53 | subtracting coefficient lists subtracts values |
| Functions.DiffDeriv | hw3/binops.h:61-63 | the difference rule for polynomials |
| Functions.SumDiffRules | hw3/binops.h:30-63 | for any operands, sum and difference nodes add or subtract both the values and the derivatives; this unfolds `Eval` and `Deriv`, and the rules are proved against expanded polynomials by `PolynomialTreeCalculus` |
| Functions.PolynomialTreeCalculus | hw3/binops.h:30-84 | on trees of `x`, constants and polynomials under `+`, `-` and `*`, the value is the expanded polynomial's value and the derivative computed by the sum, difference and product rules is the formal derivative's value |
| Functions.QuotientValues | hw3/binops.h:103-108 | for a non-zero divisor `(l' * r - l * r') / r^2` equals `(l' - q * r') / r` with `q = l / r` |
| Functions.QuotientRule | hw3/binops.h:93-108 | where the divisor is non-zero, the derivative of a quotient node agrees with the textbook quotient rule |
| Functions.NatToString | hw3/basic_func.h:127 | a degree prints as a non-empty string of decimal digits, one digit below 10 |
| Functions.NatToStringValue | hw3/basic_func.h:127 | the printed digits denote the degree, and only a degree below 10 can start with `0` |
| Functions.LeadingTermFormat | hw3/basic_func.h:115-129 | a free first term is its coefficient alone; any other is `-` for -1, nothing for 1, or the coefficient and `*`, then `x`, then `^` and the degree unless it is one, so the text ends in `x` exactly at degree one |
| Functions.NextTermFormat | hw3/basic_func.h:131-155 | a later non-zero term starts with ` - ` exactly when its coefficient is negative, then the absolute coefficient and `*` unless it is one, then `x` and `^` and the degree unless it is one; it ends in `x` exactly at degree one |
| Functions.NextTerm | hw3/basic_func.h:131-155 | a later term prints nothing exactly when its coefficient is zero |
| Functions.FirstNonZero | hw3/basic_func.h:105-109 | the leading-zero loop stops at the first non-zero coefficient, or at the end |
| Functions.WriteLeadingTerm | hw3/basic_func.h:115-129 | the statements print the first term in the format `LeadingTermFormat` states |
| Functions.WriteNextTerm | hw3/basic_func.h:136-154 | the statements print a later non-zero term in the format `NextTermFormat` states |
| Functions.PolynomialToString | hw3/basic_func.h:103-158 | the printing loops produce the polynomial's text: leading zeros skipped, the first term, every later non-zero term |
| Functions.WriteTerms | hw3/basic_func.h:115-155 | from the first non-zero coefficient on, the loop appends exactly the text of the terms |
| Functions.AppendTerm | hw3/basic_func.h:131-155 | one iteration skips a zero coefficient and appends any other term |
| Functions.TermsTextStep | hw3/basic_func.h:131-155 | appending a term's text extends the text of the terms before it |
| Functions.TermsTextSkip | hw3/basic_func.h:132-134 | a zero coefficient adds nothing to the text |
| Functions.ZeroPolynomialString | hw3/basic_func.h:107-113 | an empty or all-zero coefficient list prints as `0` |
| Functions.TrailingZeroString | hw3/basic_func.h:131-134 | a trailing zero coefficient does not change the text |
| Functions.PolynomialStringExample1 | hw3/gtest.cc:80-83 | `{-1, 0, 4}` prints as `-1 + 4*x^2` |
| Functions.PolynomialStringExample2 | hw3/gtest.cc:81-84 | `{1, -3, 3, -1}` prints as `1 - 3*x + 3*x^2 - x^3` |
| Functions.PolynomialStringExample3 | hw3/gtest.cc:82-85 | `{0, -0.5, 1.5}` prints as `-0.5*x + 1.5*x^2` |
| Functions.SumDiffTextExamples | hw3/binops.h:34-59 | `x + e^x`, `-1 + x^3` and `e^x - (x)`: a sum joins with ` + `, a difference parenthesises its right operand |
| Functions.MulDivTextExamples | hw3/binops.h:76-101 | `(x^2) * (e^x)` and `(e^x) / (e^x)`: products and quotients parenthesise both operands |
| Functions.Create | hw3/factory.h:8-16 | `ident` and `exp` give their nodes, every other name gives null |
| Functions.CreateWithParam | hw3/factory.h:18-26 | `const` and `power` give their nodes with the parameter, every other name (even `exp`) gives null |
| Functions.CreateWithParams | hw3/factory.h:28-36 | only `polynomial` gives a node, with the coefficients |
| Functions.Combine | hw3/binops.h:8-22 | an operator with a null operand fails with "at least one operand is invalid"; otherwise `+ - * /` build exactly the sum, difference, product or quotient node of the two operands |
| Functions.UnknownNameFails | hw3/binops.h:111-125 | a name the factory does not know makes every operator applied to its result fail |
| Functions.LogicErrorExamples | hw3/gtest.cc:248-265 | the four failing combinations of the operator tests all fail |

## Left out

- Threads and the mutex of the annealing engine. The `nProc` workers of a generation run one after the other, each with its own random source (`Seed`).
- Random numbers. Every draw is a parameter or an oracle: the processor and work picks, the seat picks, the players' picks, the Metropolis coin and the mutation. A `do`/`while` retry loop becomes a precondition that the drawn value would end it.
- Floating-point arithmetic:
  - criteria and durations are integers, the function values reals;
  - `exp`, real `pow`, `log`, division by zero and printing a `double` are uninterpreted;
  - the acceptance probability is the coin oracle;
  - rounding, NaN and infinity are not modelled.
- Scheduling.Criterion: the difference is exact; the `double` rounding of sums above 2^53 is not modelled.
- Annealing.Annealer.Run: criteria are natural numbers, so a solution type with a negative criterion is not covered.
- Annealing.Annealer.Run: requires `nProc > 0`, and so do the generation functions (`Generation`, `Converge`, `Anneal` and their lemmas). With no workers the source takes the smallest of an empty list of results and dereferences an iterator past its end.
- Scheduling.FromFile: the file is its parsed numbers (`SolutionFile`). The stream reading and the trailing separator characters are not modelled.
- Scheduling.Mutate: requires that some processor holds the drawn work. Otherwise the source indexes past the last row.
- Scheduling.NewSolution: requires `proc < nProc` whenever there is work to place; the source indexes out of range otherwise. Scheduling.FromFile requires the same of the processor count read from the file.
- Console input of a human player, `std::cout`, the logger, the role names table and `main` of `mafia.cc`. Only computer players are modelled.
- `Game::start` as one endless coroutine. `Mafia.Game.Day` and `Mafia.Game.Night` model its two phases, and `Mafia.Game.Finished` the check between them. The loop that alternates them is not modelled.
- Mafia.Game.Day: the `max_element` over the vote map is a parameter `kick`. It may be any player with the most votes, because the map's iteration order is unspecified. The same holds for the mafia's choice at night.
- Mafia.Act: each role's retry loop is a precondition that the pick is one the loop would accept. The night and the day keep the program's Sheriff check, so a state in which it never ends (`SheriffCheckStuck`) has no next state in the model.
- The day phase (`VotesAsWritten`, `CountVotes`, `Mafia.Game.Day`) uses the Sheriff's vote as written. `Vote`, `Votes` and `DayKicksLivingPlayer` state what the corrected vote would guarantee.
- The converting template overloads of `shared_ptr` (a `shared_ptr<C>` for a compatible `C`) behave as the same-type ones and are not modelled separately. Array specialisations and `operator[]` are not modelled.
- `operator*` and `operator->` of `shared_ptr`: dereferencing is outside the model.
- `operator<=>` between two `shared_ptr` values (hw1/shared_ptr.h:330-337) orders raw addresses, which the model does not have.
- The exception paths of `shared_ptr(C*)` and `reset(C*)` (a failed counter allocation) are not modelled.
- SharedPointer.SharedPtr.Acquire: the counter is unbounded, so wrap-around of `size_t` is not modelled.
- SharedPointer.SharedPtr.Assign: requires the two instances to agree on their shared counter, as every pair does when all instances are built through this class. Two independent owners of one raw pointer are not modelled.
- SharedPointer.SharedPtr.MoveAssign: requires the same agreement (`Agree`) as `Assign`, for the same reason.
- Functions.QuotientRule: the quotient rule is proved only where the divisor is non-zero; at a zero divisor the value is left to the environment.
- Functions.MulDeriv: the product rule is compared with an independent definition only for trees of `x`, constants and polynomials (`PolynomialTreeCalculus`). For `e^x` and `x^p` the derivative is the rule itself.
- hw1/async.h, hw1/logging.h, hw2/main.cc and hw2/generate.cc are not part of this model.

## Findings

| source | as written | input that shows it | evidently intended | confidence | as-written member | corrected member |
|---|---|---|---|---|---|---|
| hw1/mafia.cc:412-416 | `Sheriff::computer_vote` votes for `last_checked` whenever `has_target` is set, without checking that the target is alive; `Sheriff::act` shoots the target and leaves `has_target` set | a night in which the Sheriff shoots its living Mafioso target and the Doctor cures someone else: next day the Sheriff votes against the dead target | vote for the target only while it is alive, otherwise pick a living player as `Sheriff::act` does at lines 485-501 | not executed | Mafia.SheriffVotesForTheDead | Mafia.SheriffVote |
| hw1/mafia.cc:207-222 | the day kicks out a player with the most votes, and the Sheriff's vote may name a dead target | five players (Sheriff, Mafioso, Doctor, Maniac, Civilian): day 1 kicks the Civilian; on night 1 the Sheriff checks the Mafioso, the Mafioso targets the Doctor, the Doctor cures itself and the Maniac kills the Mafioso; on day 2 the Sheriff votes for its dead target, the Doctor for the Maniac and the Maniac for the Doctor; in the three-way tie `max_element` may return the dead target, whom `kill_or_cure` then "kicks out" | only living players can be kicked out | not executed | Mafia.DayMayKickTheDead | Mafia.DayKicksLivingPlayer |
| hw1/mafia.cc:495-501 | the Sheriff's check retries until it draws a living, unchecked player other than itself; the Maniac is cleared like any civilian | six players (Sheriff, Doctor, Maniac, Mafioso, two Civilians): day 1 kicks the Mafioso; night 1 the Doctor cures the Maniac's victim and the Sheriff clears the Maniac; day 2 kicks a Civilian; night 2 the Doctor cures itself against the Maniac and the Sheriff clears the Doctor; day 3 kicks the other Civilian; at night 3 the retry loop never ends | when everyone else is cleared, check any living player other than the Sheriff | not executed | Mafia.SheriffCheckStuck | Mafia.CorrectedSheriffCanPick |
