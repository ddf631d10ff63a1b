# FiniteFlow32 in Dafny

FiniteFlow32 computes with rational functions by evaluating dataflow graphs over prime fields and putting the
results together again: it solves linear systems modulo p, samples functions into caches, and reconstructs rational
numbers and polynomials from their images. The files here model that machinery and prove what it keeps.

The model takes the form of the program. What the program updates in place is a class or an array here, and every
such method is proved against a function or predicate on values; the theorems are stated about these and about whole
runs. Machine words are integers with their wrap-around written out, except in SHA-1, where they are bit vectors.

| file | modules | what it is about |
|---|---|---|
| `ModArith.dfy` | `Common`, `ModArith`, `Gcds` | congruences, primes, greatest common divisors |
| `FFMod.dfy` | `FFMod`, `IntegerMath` | word-level modular arithmetic with precomputed reciprocals, Shoup multiplication, inverse, powers |
| `Elimination.dfy` | `LinearAlgebra`, `Elimination`, `ReducedSystem`, `ReducedUnique` | what Gauss elimination keeps, reduced row echelon form and its uniqueness |
| `DenseMatrix.dfy` | `DenseMatrix` | dense elimination in place, reading a reduced matrix |
| `DenseLearning.dfy`, `DenseSolver.dfy` | `DenseLearning`, `DenseEvaluation`, `DenseSolver` | the dense solver: two learning passes, the kept equations, the needed variables, evaluation |
| `SparseRow.dfy` | `SparseRow`, `SparseBuffers` | sorted sparse rows and the buffers that hold them |
| `SparseElimination.dfy`, `SparseMatrix.dfy` | `SparseElimination`, `SparseReduction`, `SparseSystem`, `SparseMatrices` | sparse elimination as a function of the rows, and in place with recorded dependencies |
| `SparseSolver.dfy` | `MarkSweep`, `SparseSolver` | the second learning pass of the sparse solver, marking and sweeping of equations nothing needed depends on |
| `MPGcd.dfy`, `NumericReconstruction.dfy`, `NumericConvergence.dfy`, `MPFunctions.dfy` | the same | rational reconstruction, Chinese remainders, the loop over several primes and when it converges, merging of polynomials |
| `FunctionCache.dfy`, `Sampling.dfy` | the same | the open-addressing cache as a map, packed samples, sampling split over threads |
| `Graph.dfy` | `Graphs` | the dataflow graph: creation, deletion, output selection, evaluation |
| `Sha1.dfy`, `WjCryptSha1.dfy` | `Sha1Standard`, `Sha1Counter`, `WjCryptSha1` | sections 4 to 6 of FIPS 180-4 as a specification, and the streaming implementation |
| `AnalyticExpression.dfy` | `Bytecode`, `AnalyticExpressions`, `CompiledExpression` | the stack machine, its static stack bound, and the code compiled from expressions |
| `PrimeTable.dfy` | `Fermat`, `PrimeTable` | Fermat's little theorem and the generator of the table of primes |
| `JsonText.dfy`, `JsonGrammar.dfy`, `Json.dfy` | `JsonText`, `JsonRoundTrip`, `JsonGrammar`, `JsonReader`, `JsonParsers`, `JsonWriters` | the text form of rational functions, which texts are accepted, the scanner, parser and writers |

What the proofs brought to light about the program is part of the model:

* The numeric loop finds the true values, once the primes are enough for them, if and only if no check before is misled
  (`NumericConvergence.SearchConvergesIff`), where what misleads a check is told from the true values and the primes.
  With primes of the program's tables two primes are always safe (`NumericConvergence.TwoPrimesConverge`). With more it
  can give up although five primes would do (`NumericConvergence.SearchCanGiveUp`): a wrong guess has a denominator
  that the next prime divides. And it can return a wrong value (`NumericConvergence.AcceptsResidue`).
* A failed selection of an output node overwrites the stored order. Whether the order is still right for the node that
  stays selected is decided by `Graphs.FailedSelectionKeepsOrderIff`; where it is not, evaluation can return an old
  value (`Graphs.FailedSelectionLosesOrder`), and selecting the same node again reports success and repairs nothing
  (`Graphs.ReselectAfterFailure`).
* The static stack bound holds for all runs whose ADD and MUL have at least two operands, and 2 is the exact threshold
  (`Bytecode.CountThreshold`); the compiler only emits such counts.
* `rat_rec` fails exactly when the common factor of its arguments is too large (`MPGcd.ReconstructMeets`), and callers
  then keep the value they had, which the merge of polynomials states as it is.
* A written list of functions is read back if and only if no exponent is negative (`JsonRoundTrip.RoundTrip`), although
  the parser accepts every text whose tokens spell a list and no other (`JsonGrammar.ParsesIffSpelled`).
* The dependencies that the sparse reduction records carry two different numberings once a row has become zero.
  `SparseMatrices.SparseMatrix.ToReducedRowEchelon` states them as they are; sweeping is proved right when no row of
  the result is zero, which `SparseSolver.NoneVanished` shows to be enough.
* The script that generates the primes calls its test deterministic for 32-bit numbers. It never rejects a prime
  (`PrimeTable.PrimePasses`), but it accepts a composite number (`PrimeTable.CompositePasses`), which lies far below
  the 400 primes of the table. What acceptance means is `PrimeTable.PassedMeans`.
* `eq_to_substitute` looks for the smallest equation number, not the smallest column; the order of substitutions
  follows the code.

## Model

| member | source | states |
|---|---|---|
| FFMod.PrecomputedReciprocal | include/fflow/ffmod.h:85-99 | the reciprocal word of a normalised modulus is floor((B^2 - 1) / d) - B, for B = 2^64 |
| FFMod.Div2Mod1 | include/fflow/ffmod.h:101-119 | the division of a two-word number by multiplication with the reciprocal and at most two corrections is the exact remainder |
| FFMod.DivisionStep | include/fflow/ffmod.h:101-119 | the wrapped quotient and remainder candidates, corrected as the code does, give the remainder for every reciprocal within its error bound |
| FFMod.AddMod | include/fflow/ffmod.h:158-170 | the sum modulo n on both paths, the 63-bit sign trick and the comparison |
| FFMod.SubMod | include/fflow/ffmod.h:172-187 | the difference modulo n on both paths |
| FFMod.MulMod | include/fflow/ffmod.h:149-156 | the product modulo n |
| FFMod.APBCMod | include/fflow/ffmod.h:189-199 | a + b * c modulo n in one two-word division |
| FFMod.MulModShoup | include/fflow/ffmod.h:232-246 | Shoup multiplication equals the product modulo n: the quotient read off the high word is at most one too small |
| FFMod.MulInverse | src/ffmod.c:16-35 | for a prime modulus the extended Euclid loop ends with the inverse in [0, n); its coefficients stay within [-n, n] and the products within 128 bits |
| FFMod.EuclidStep | src/ffmod.c:22-30 | one step keeps the identity abs(t) * newr + abs(newt) * r = n and the bounds of the coefficients |
| IntegerMath.PowerMod | src/integer_math.cc:44-55 | square and multiply gives x^y modulo n for a 32-bit exponent |
| Elimination.ColumnStepTracks | src/matrix.cc:13-46 | swapping, normalising and eliminating one column keeps the solutions, and keeps track of which original equations the pivot rows stand for |
| Elimination.ColumnStepEchelon | src/matrix.cc:13-46 | the column step turns echelon form of k columns into echelon form of k + 1 |
| Elimination.EchelonSolutions | src/matrix.cc:9-50 | after forward elimination the rows, all original equations, and the original equations that became pivots have the same solutions |
| Elimination.BackStepSolutions | src/matrix.cc:53-85 | clearing a pivot column above its row keeps the solutions |
| DenseMatrix.MatrixView.FindPivot | src/matrix.cc:16-24 | the first row from r on with a non-zero entry in the column, or n if there is none |
| DenseMatrix.MatrixView.EliminateColumn | src/matrix.cc:33-45 | every given row loses its entry in the column to the right multiple of the pivot row; other rows stay |
| DenseMatrix.MatrixView.ToRowEchelon | src/matrix.cc:9-50 | the loop in place ends in echelon form, a permutation of the rows with the same solutions, for every matrix over a prime field |
| DenseMatrix.MatrixView.ToReducedRowEchelon | src/matrix.cc:53-85 | reduced row echelon form with exactly the solutions of the input; the rows that became pivots already have these solutions; columns behind the view move with their row |
| DenseMatrix.MatrixView.IsImpossibleSystem | src/matrix.cc:91-106 | on a reduced matrix: true exactly when there is no solution |
| DenseMatrix.MatrixView.DependentVars | src/matrix.cc:147-161 | exactly the pivot columns among the variables, in order |
| DenseMatrix.MatrixView.IndependentVars | src/matrix.cc:123-145 | exactly the other variable columns, in order |
| ReducedSystem.SolvableIff | src/matrix.cc:91-106 | a reduced system has a solution if and only if the right-hand side is no pivot column |
| ReducedSystem.PivotSolutionHolds | src/matrix.cc:91-106 | setting the non-pivot variables to 0 gives a solution |
| ReducedUnique.PivotIff | src/matrix.cc:53-85 | a column is a pivot if and only if it vanishes in every solution in which all later columns vanish |
| ReducedUnique.PivotsDetermined | src/matrix.cc:53-85 | two reduced forms with the same solutions have the same pivots |
| ReducedUnique.ReducedDetermined | src/matrix.cc:53-85 | the reduced form is determined by the solutions: pivot choice and row order do not show in the result |
| DenseLearning.ZeroesReadForced | src/alg_linear_solver.cc:120-144 | a variable read off as zero vanishes in every solution of the sample |
| DenseLearning.PickedSuffice | src/alg_linear_solver.cc:101-107 | the picked equations with the zero variables have exactly the solutions of the sample |
| DenseLearning.FirstReduction | src/alg_linear_solver.cc:225-230 | the first reduction finds a sample impossible exactly when it has no solution |
| DenseLearning.SecondReduction | src/alg_linear_solver.cc:235-246 | after dropping the zero variables of a solvable sample every pivot is a variable and the pivot equations describe the whole sample |
| DenseEvaluation.PivotsAfterZeroes | src/alg_linear_solver.cc:232-244 | dropping the zero variables removes exactly their columns from the pivots and adds none |
| DenseEvaluation.ZeroColumnEmpty | src/alg_linear_solver.cc:109-118 | the column of a dropped variable stays empty in the reduced form and is no pivot |
| DenseEvaluation.FlagsAfterPasses | src/alg_linear_solver.cc:72-82 | after both passes the variables flagged dependent are the final pivots and the zero variables, and nothing else |
| DenseEvaluation.AnswerIff | src/alg_linear_solver.cc:309-321 | the coefficients put out for a dependent variable give its value in every solution if and only if its row has no entry outside the put-out columns |
| DenseEvaluation.NeededCovers | src/alg_linear_solver.cc:175-206 | once the needed flags are extended no row of a needed variable has an entry outside the needed independent ones |
| DenseEvaluation.OutputsLength | src/alg_linear_solver.cc:276 | the number of outputs is the number of needed dependent variables times the width of a block |
| DenseEvaluation.OutputBlock | src/alg_linear_solver.cc:309-321 | the block of each needed variable lies behind those of the needed variables before it |
| DenseEvaluation.EvaluationRight | src/alg_linear_solver.cc:290-324 | reducing the kept equations at the point of learning gives the learned rows again, and they are right for every solution of the full system |
| DenseEvaluation.OutputsRight | src/alg_linear_solver.cc:290-324 | the same for the block in the output vector |
| DenseSolver.DenseLinearSolver.Reset | src/alg_linear_solver.cc:20-32 | flags, lists and equation numbers as before learning |
| DenseSolver.DenseLinearSolver.NumberEqs | src/alg_linear_solver.cc:66-70 | every row holds its position in the extra column |
| DenseSolver.DenseLinearSolver.GetDependentVariables | src/alg_linear_solver.cc:72-82 | the pivots are flagged and listed, the unflagged variables are the independent ones |
| DenseSolver.DenseLinearSolver.CheckDependentVariables | src/alg_linear_solver.cc:84-99 | comparing the number of pivots and their flags succeeds if and only if the pivots are the learned ones |
| DenseSolver.DenseLinearSolver.GetIndependentEqs | src/alg_linear_solver.cc:101-107 | the numbers of the pivot rows |
| DenseSolver.ReplaceZeroes | src/alg_linear_solver.cc:109-118 | the columns of the zero variables are cleared, all else stays |
| DenseSolver.DenseLinearSolver.LearnZeroes | src/alg_linear_solver.cc:120-144 | a variable is flagged zero exactly when its pivot row has no other entry, right-hand side included |
| DenseSolver.MarkNeeded | src/alg_linear_solver.cc:175-189 | exactly the variables in rows of needed dependent ones become needed, and those rows are counted |
| DenseSolver.ListNeeded | src/alg_linear_solver.cc:196-205 | the needed non-zero variables, dependent and independent, in order |
| DenseSolver.DenseLinearSolver.LearnNeeded | src/alg_linear_solver.cc:175-206 | the lists are as long as counted and cover the rows of all needed dependent variables |
| DenseSolver.DenseLinearSolver.Learn1 | src/alg_linear_solver.cc:208-250 | an impossible sample is recognised; otherwise the kept equations and the zero variables have exactly the solutions of the full sample, and flags, lists and learned form agree: needed are exactly the variables asked for and those in the rows of learned ones asked for, listed in order; a failure leaves the flags of a reset |
| DenseSolver.DenseLinearSolver.Learn2 | src/alg_linear_solver.cc:252-279 | succeeds if and only if the sample is impossible like the first one or has the learned pivots; a failure goes back to the first stage |
| DenseSolver.DenseLinearSolver.Evaluate | src/alg_linear_solver.cc:290-324 | an output exists if and only if the pivots are the learned ones; then it is the rows of the needed variables, block by block |
| DenseSolver.DenseLinearSolver.EvaluationIsSolution | src/alg_linear_solver.cc:208-324 | learning and then evaluating at the same point gives every needed dependent variable its value in every solution of the full system |
| DenseSolver.DenseLinearSolver.AskedAreAnswered | src/alg_linear_solver.cc:208-324 | every variable asked for is answered: it vanishes in every solution, or the output holds the block that gives its value, or it is one of the free variables the blocks refer to |
| SparseRow.MergeWellFormed | src/matrix.cc:202-263 | merging two strictly sorted rows keeps them sorted and without zero entries |
| SparseRow.MergeCoef | src/matrix.cc:202-263 | every entry of the merge is a[c] - f * b[c] |
| SparseRow.EliminateWellFormed | src/matrix.cc:202-263 | the eliminated row is strictly sorted and has no zero entry |
| SparseRow.EliminateCoef | src/matrix.cc:202-263 | the eliminated row is r1 - r1[pivot] * r2, column by column |
| SparseRow.SameEntries | src/matrix.cc:202-263 | well-formed rows are determined by their entries |
| SparseBuffers.Ambc | src/matrix.cc:177-198 | both templates compute a - b * c |
| SparseBuffers.MergeInto | src/matrix.cc:218-262 | the three inner loops write exactly the merge of both rows behind what is already there |
| SparseBuffers.SparseMatrixRow.Resize | include/fflow/matrix.hh:431-440 | room for n cells and END, earlier cells kept |
| SparseBuffers.SparseMatrixRow.CopyInto | include/fflow/matrix.hh:390-394 | cells are copied, the other row keeps its number |
| SparseBuffers.SparseMatrixRow.Normalize | include/fflow/matrix.hh:500-504 | every value is divided by the leading entry |
| SparseBuffers.SparseMatrixRow.GaussElimination | src/matrix.cc:202-276 | the row becomes r1 - r1[pivot] * r2 in a buffer of as many cells as both rows have, which never overflows |
| SparseElimination.SubstituteClears | include/fflow/matrix.hh:536-554 | substituting the smallest equation removes its leading column and brings in the leading column of no smaller one |
| SparseElimination.ReduceClears | src/matrix.cc:329-346 | the substitution loop ends in a row that contains the leading column of no equation |
| SparseElimination.ReduceHolds | src/matrix.cc:329-346 | on the solutions of the substituted equations reducing a row does not change whether it holds |
| SparseElimination.RecordedAreCombined | src/matrix.cc:329-346 | the recorded equations, each once and in increasing order, are those whose multiples by factors other than 0 were taken from the row, column by column |
| SparseElimination.NormalHolds | src/matrix.cc:349-363 | dividing by the leading entry keeps the solutions |
| SparseReduction.ForwardTriangular | src/matrix.cc:318-365 | forward elimination ends in rows none of which contains an earlier leading column |
| SparseReduction.ForwardHolds | src/matrix.cc:318-365 | forward elimination keeps the solutions |
| SparseReduction.BackHolds | src/matrix.cc:384-415 | back substitution keeps the solutions, whichever rows are substituted |
| SparseReduction.BackClear | src/matrix.cc:384-415 | a row whose leading variable is flagged, or any row without flags, ends up without any other leading column; every other row stays as it was |
| SparseReduction.ReducedHolds | src/matrix.cc:367-416 | the whole sparse reduction keeps the solutions |
| SparseReduction.ReducedShape | src/matrix.cc:367-416 | all rows are led by a 1 in different columns, and the row of a flagged variable contains no other leading column |
| SparseReduction.ReducedByFlags | src/matrix.cc:384-415 | told from the sequence of flags: exactly the rows of flagged variables lose all other leading columns, every other row is the one forward elimination left |
| SparseSystem.FullyReducedSolvable | src/matrix.cc:430-433 | a fully reduced sparse system has a solution if and only if no row leads with the right-hand side |
| SparseSystem.SolvableIff | src/matrix.cc:430-433 | the same for any system after forward elimination |
| SparseSystem.ReducedFully | src/matrix.cc:384-415 | without flags every system ends up fully reduced |
| SparseMatrices.EqToSubstitute | include/fflow/matrix.hh:536-554 | the smallest registered equation among the cells |
| SparseMatrices.ReduceWorking | src/matrix.cc:331-344 | the loop over the two working rows computes the reduced row and lists the substituted equations |
| SparseMatrices.ReduceInPlace | src/matrix.cc:329-346 | the row is copied out, reduced and copied back, or left alone if nothing applies |
| SparseMatrices.SparseMatrix.ForwardRow | src/matrix.cc:323-364 | row i becomes its forward-reduced form and is registered; all other rows and numbers stay |
| SparseMatrices.SparseMatrix.ToRowEchelon | src/matrix.cc:318-365 | the matrix in place becomes the forward elimination, and eqdeps lists the substitutions of every row |
| SparseMatrices.SparseMatrix.RemoveZeroRows | src/matrix.cc:374-382 | the non-zero rows move up in order with the numbers of their equations, the zero rows end up last |
| SparseMatrices.IdsStep | src/matrix.cc:374-382 | a swap takes the number of the equation along with its row |
| SparseMatrices.SparseMatrix.BackRowStep | src/matrix.cc:391-415 | the row loses all other leading columns if its variable is flagged and is left alone otherwise; its dependencies are recorded |
| SparseMatrices.SparseMatrix.ToReducedRowEchelon | src/matrix.cc:367-416 | the matrix in place becomes the reduced system followed by zero rows, back-substituted in exactly the rows the flags say; eqdeps lists forward and backward substitutions at the indices the code uses, and equation numbers move with their rows |
| SparseMatrices.SparseMatrix.ImpossibleIff | src/matrix.cc:430-433 | the registered equation of the right-hand side tells exactly whether the original system has no solution |
| SparseMatrices.SparseMatrix.RestrictRows | include/fflow/matrix.hh:636-645 | the first k rows stay, the working rows move up behind them |
| MarkSweep.ReduceSelected | src/alg_linear_solver.cc:1000-1051 | with a selection that contains every substituted equation a row is reduced in the same way |
| MarkSweep.SweptForward | src/alg_linear_solver.cc:1000-1051 | forward elimination of the selected equations gives the rows it gave among all of them |
| MarkSweep.SweptReduction | src/alg_linear_solver.cc:1000-1051 | reducing a selection closed under dependencies gives the identical row for each selected equation |
| SparseSolver.MarkEq | src/alg_linear_solver.cc:1000-1010 | the recursive marking ends; it adds only equations reached from the given one, and the marks end up closed under dependencies |
| SparseSolver.SparseLinearSolver.Mark | src/alg_linear_solver.cc:1017-1027 | marked are exactly the equations reached through the dependencies from a row of a needed variable |
| SparseSolver.SparseLinearSolver.SweepRows | src/alg_linear_solver.cc:1029-1044 | numbers and output positions of the kept equations in order; the variables of the others are flagged |
| SparseSolver.SparseLinearSolver.MarkAndSweepEqs | src/alg_linear_solver.cc:1012-1051 | nothing happens without dependencies; otherwise the matrix is cut to the marked equations and numbers, positions and flags are those of the sweep |
| SparseSolver.SweepPreserves | src/alg_linear_solver.cc:1000-1051 | without zero rows, reducing the marked equations alone gives every marked row unchanged, and every row of a needed variable is marked |
| SparseSolver.SparseLinearSolver.CheckDependentVariables | src/alg_linear_solver.cc:654-690 | succeeds if and only if every row before the first zero row leads with a dependent variable that has not been swept, a needed one being zero or not as learned, and as many needed ones are found as were learned |
| SparseSolver.CheckFindsLearned | src/alg_linear_solver.cc:654-690 | for rows with different leading variables that says: only learned variables lead a row, and every needed learned one leads one |
| SparseSolver.SparseLinearSolver.Learn2 | src/alg_linear_solver.cc:887-920 | the sample is reduced and its dependencies recorded, equation numbers moving with their rows; succeeds exactly for an impossible sample after an impossible first one, or if the leading variables are as learned; nothing else that was learned changes |
| SparseSolver.NoneVanished | src/alg_linear_solver.cc:1000-1051 | if the reduced rows are all non-zero then no row became zero on the way and the recorded dependencies are those of both passes |
| SparseSolver.SweepAfterLearning | src/alg_linear_solver.cc:887-1051 | after a second pass without zero rows the marked equations alone reproduce all rows of needed variables, which contain no other leading column, and the numbers kept are those of the equations they were filled from |
| SparseSolver.OutputsAfterLearning | src/alg_linear_solver.cc:1012-1051 | in the rows reduced again the recorded output positions lead to the rows of the needed variables, in order |
| SparseSolver.SparseLinearSolver.ReadyToSweep | src/alg_linear_solver.cc:887-1051 | a passed second pass without zero rows meets all that the sweep relies on, the number of output positions included |
| MPGcd.CanonicalUnique | src/mp_gcd.cc:58 | equal fractions in lowest terms are the same |
| MPGcd.CofactorStep | src/mp_gcd.cc:37-49 | the cofactors grow in absolute value and alternate in sign |
| MPGcd.CofactorBound | src/mp_gcd.cc:37-49 | a cofactor times the remainder before it stays below the modulus |
| MPGcd.DescentStep | src/mp_gcd.cc:37-52 | one step of the truncated Euclid keeps both congruences and all bounds |
| MPGcd.RatRec | src/mp_gcd.cc:20-61 | the loop ends and returns the reconstruction, or fails |
| MPGcd.ReconstructMeets | src/mp_gcd.cc:20-61 | on success num = a * den modulo b, num^2 <= b and 0 < den^2 < b, brought to lowest terms; it fails if and only if a is not 0 and the square of gcd(a, b) exceeds b |
| MPGcd.DescendSmallest | src/mp_gcd.cc:33-52 | no fraction that represents the residue with a numerator up to the square root of b has a smaller denominator than the one the descent ends with |
| MPGcd.ReconstructsSimplest | src/mp_gcd.cc:20-61 | the reconstruction of the residue of n/d is the fraction of smallest denominator among those that agree with n/d modulo b and whose numerator is at most the square root of b; it fails exactly when that is 0 although n/d is not 0 modulo b |
| MPGcd.PrimeHasNoLargeFactor | src/mp_gcd.cc:33-34 | modulo a prime there is always a reconstruction |
| MPGcd.RatModResidue | src/mp_gcd.cc:6-18 | rat_mod gives a residue that represents the fraction, exactly when the denominator is invertible |
| MPGcd.RatModUnique | src/mp_gcd.cc:6-18 | that residue is the only one |
| MPGcd.PrimeRoundTrip | src/mp_gcd.cc:6-61 | modulo a prime rat_mod of the reconstruction of a is a, for every residue a |
| MPGcd.BoundedPair | src/mp_gcd.cc:20-61 | two fractions within the bounds that agree modulo b are equal |
| MPGcd.RecoversFraction | src/mp_gcd.cc:20-61 | a fraction n/d with d coprime to b, 4 n^2 <= b and 4 d^2 <= b is recovered from its residue, in lowest terms |
| MPGcd.ChineseRemainderCoeffs | src/mp_gcd.cc:63-89 | c1 is 1 mod p and 0 mod q, c2 is 0 mod p and 1 mod q, for a prime q that does not divide p |
| MPGcd.CombinationMeets | src/mp_gcd.cc:91-101 | the combination is congruent to both inputs |
| MPGcd.CrtUnique | src/mp_gcd.cc:91-101 | and it is the only such number below the product |
| MPGcd.ChineseRemainderFromCoeffs | src/mp_gcd.cc:91-101 | the result is that number |
| NumericReconstruction.ResidueMatches | src/alg_mp_reconstruction.cc:768-772 | after k primes every residue is congruent to every merged image |
| NumericReconstruction.ResidueUnique | src/alg_mp_reconstruction.cc:768-772 | and it is the only number below the product of the primes that is |
| NumericReconstruction.CandidateRight | src/alg_mp_reconstruction.cc:769-773 | once the product of the primes is at least 4 n^2 and 4 d^2 the candidate is the true fraction |
| NumericReconstruction.Converges | src/alg_mp_reconstruction.cc:749-773 | then the next prime accepts all candidates |
| NumericReconstruction.SearchConverges | src/alg_mp_reconstruction.cc:723-778 | if no earlier check ends the search, it ends there with the true values |
| NumericReconstruction.AcceptedRight | src/alg_mp_reconstruction.cc:749-762 | a fresh candidate that a further prime accepts is the true fraction, if that is small for the product with the further prime |
| NumericReconstruction.Check | src/alg_mp_reconstruction.cc:749-759 | all candidates agree with the images, or the first that does not has a denominator divisible by the prime |
| NumericReconstruction.Guess | src/alg_mp_reconstruction.cc:734-745 | residues and candidates after one prime |
| NumericReconstruction.Merge | src/alg_mp_reconstruction.cc:767-773 | residues and candidates after one more prime; a failed reconstruction keeps the old candidate |
| NumericReconstruction.ReconstructNumeric | src/alg_mp_reconstruction.cc:708-781 | for every table of distinct primes, walked from the starting one on, and every evaluation the loop returns what the search over the successful images returns |
| NumericConvergence.CandidateIsGuessed | src/alg_mp_reconstruction.cc:734-773 | every candidate is determined by the true value and the primes: the simplest fraction that agrees with it modulo their product, or the guess before if that is 0 |
| NumericConvergence.CheckOutcome | src/alg_mp_reconstruction.cc:749-762 | the check accepts, gives up or goes on as the true values and the primes tell: all guesses agree modulo the next prime, or that divides the denominator of the first guess that does not agree |
| NumericConvergence.CandidateSmall | src/alg_mp_reconstruction.cc:734-773 | numerator and denominator of a candidate are at most the square root of the product of the primes used |
| NumericConvergence.StaysTrue | src/alg_mp_reconstruction.cc:749-773 | candidates that are the true values stay the true values after every further prime |
| NumericConvergence.SearchConvergesIff | src/alg_mp_reconstruction.cc:723-778 | once k primes are enough for all true values the search finds them if and only if no check before is misled: a guess other than its true value agrees with it modulo the next prime along with all others, or the next prime divides the denominator of the first guess that does not agree |
| NumericConvergence.FirstCheckNotStuck | src/alg_mp_reconstruction.cc:749-754 | with primes of the tables the first check never gives up |
| NumericConvergence.TwoPrimesConverge | src/alg_mp_reconstruction.cc:723-778 | with primes of the tables, if two are enough for the true values the search always finds them |
| NumericConvergence.AcceptsResidue | src/alg_mp_reconstruction.cc:749-762 | for all primes of the tables: an integer that is congruent to a small c modulo the first two primes makes the search return c, which is right only if it is c |
| NumericConvergence.InverseChecks | src/alg_mp_reconstruction.cc:749-754 | for the inverse of the third prime modulo the first two the first check rejects, and the second gives up if and only if the square of the third prime is below the product of the first two |
| NumericConvergence.SearchCanGiveUp | src/alg_mp_reconstruction.cc:749-754 | for all primes of the tables with that property there is an integer for which the search gives up although five primes are enough |
| MPFunctions.CompareOrder | include/fflow/polynomial.hh:310-330 | the comparison of monomials is a strict total order |
| MPFunctions.CompareMeans | include/fflow/polynomial.hh:310-330 | the larger monomial has the larger degree, or the same degree and the larger exponent at the first difference |
| MPFunctions.MergedOrdered | src/mp_functions.cc:67-150 | the merged list is strictly ordered |
| MPFunctions.MergedCoeff | src/mp_functions.cc:67-150 | a monomial occurs exactly if it occurs in either list, and its coefficient combines both, a missing one counting as 0 |
| MPFunctions.MergedCongruent | src/mp_functions.cc:67-150 | every coefficient is congruent to each input modulo its own modulus |
| MPFunctions.MPReconstructedPoly.SkipLarger | src/mp_functions.cc:81-89 | entries that come before the next monomial of the other list are combined with 0 |
| MPFunctions.MPReconstructedPoly.MergeTerms | src/mp_functions.cc:77-139 | the loops with insertions in place compute exactly the merged list |
| MPFunctions.MPReconstructedPoly.Merge | src/mp_functions.cc:67-150 | terms and residues become the merge; a coefficient whose common factor with the modulus is not too large is the lowest-terms form of a fraction that represents it within the bounds, any other keeps the entry at its index |
| MPFunctions.MergeRecovers | src/mp_functions.cc:67-150 | a true coefficient that is small for the product of the moduli and has both images is exactly the rational coefficient after the merge |
| FunctionCache.NextPowOf2 | src/function_cache.cc:8-16 | the smallest power of two from 2 on that is large enough |
| FunctionCache.Place | src/function_cache.cc:149-180 | probing ends at the first empty slot, and the table then represents the map with the new entry |
| FunctionCache.Absent | src/function_cache.cc:73-97 | an empty slot on the probing path means that the key is not stored |
| FunctionCache.UIntCache.Find | src/function_cache.cc:73-97 | the stored value exactly for the keys of the map, for every hash function |
| FunctionCache.UIntCache.Rehash | src/function_cache.cc:161-182 | a larger table represents the same map |
| FunctionCache.UIntCache.NewEntry | src/function_cache.cc:134-159 | the map gains the new key with a fresh buffer; the table grows before it is more than half full |
| FunctionCache.UIntCache.ReserveMore | src/function_cache.cc:38-50 | the map stays, and there is room for n more entries without rehashing |
| FunctionCache.UIntCache.MergeCaches | src/function_cache.cc:184-222 | the map becomes the disjoint union of all maps, and the other caches end up empty |
| Sampling.BitArrayNonZeroes | include/fflow/common.hh:497-504 | the number of flags set below a position |
| Sampling.WordIsBits | include/fflow/common.hh:466-469 | the flag at a position is a bit: a 64-bit word is the sum of the powers of two of its set flags |
| Sampling.Pack | src/alg_reconstruction.cc:255-274 | flags, then the values of the flagged outputs in order, or a failure mark |
| Sampling.Unpack | src/alg_reconstruction.cc:96-105 | counting flags finds exactly the value of the flagged output, or the failure |
| Sampling.PackedFirst | src/alg_reconstruction.cc:96-97 | the first packed value is the failure mark exactly for a failed evaluation |
| Sampling.EvaluateAndSparseCacheSamples | src/alg_reconstruction.cc:236-276 | the cache gains exactly the points of the samples, each with its packed evaluation; earlier entries stay |
| Sampling.ChunksTile | src/graph.cc:1281-1296 | the chunks of all threads start at 0 and end at the number of samples |
| Sampling.ChunkOf | src/graph.cc:1281-1296 | every sample lies in the chunk of some thread |
| Sampling.ChunksDisjoint | src/graph.cc:1281-1296 | chunks of different threads share no point |
| Sampling.ChunksBalanced | src/graph.cc:1281-1289 | no thread has more than one sample more than another |
| Sampling.AllDone | src/graph.cc:1290-1305 | the caches of all threads are disjoint and together hold exactly the samples |
| Sampling.ParallelSample | src/graph.cc:1259-1305 | for any number of threads the cache ends up with exactly what evaluating the samples one by one gives |
| Sampling.SparselySampledRatFun.Evaluate | src/alg_reconstruction.cc:83-114 | for a sampled point with the flag of this output: exactly the value or the failure of the function; a missing point fails and is noted once |
| Graphs.InputsFirst | src/graph.cc:311-334 | in the order of an output node every node comes after its inputs |
| Graphs.MarkNodeAndDeps | src/graph.cc:293-300 | exactly the ancestors of the node are marked in addition |
| Graphs.MarksAreAncestors | src/graph.cc:293-317 | starting without marks, the marked nodes are the ancestors |
| Graphs.SortedComputes | src/graph.cc:313-331 | the collected ancestors sorted by depth compute the output |
| Graphs.Graph.SetInputVars | src/graph.cc:265-291 | node 0 becomes the input node, or the call is refused and changes nothing |
| Graphs.Graph.NewNode | src/graph.cc:83-137 | succeeds exactly if every input exists with the right length; a fresh slot then holds the algorithm as given with its inputs, depth grows, exactly the inputs become immutable, all other nodes and fields stay, and so does the output order |
| Graphs.NewNodeMeaning | src/graph.cc:83-137 | after it every earlier node computes what it did, and the new node its algorithm on the values of its inputs, or nothing if one of them has none |
| Graphs.NewNodeOnNewNode | src/graph.cc:83-137 | on the node just made another one can be made exactly if it takes an input of the length that is put out |
| Graphs.Graph.GetFreeNodeId | src/graph.cc:158-176 | the last freed slot, or a new one, never that of the input node; the free list stays exact |
| Graphs.Graph.DeleteNode | src/graph.cc:144-156 | only a mutable node is deleted; its slot is freed, an output node is unselected, all invariants stay |
| Graphs.Graph.SetNodeMutable | src/graph.cc:669-687 | succeeds exactly for a live node of a mutable graph that no other uses; only this flag changes |
| Graphs.Graph.SetOutputNode | src/graph.cc:302-341 | succeeds exactly if the graph is mutable, the node exists and it is selected already, which changes nothing, or all its dependencies have learned; then the order is its ancestors with inputs first; a failure says what is overwritten |
| Graphs.OverwrittenIs | src/graph.cc:313-326 | a selection that fails leaves what the node is computed from with a number below the first dependency that has not learned, in order of the numbers |
| Graphs.FailedSelectionKeepsOrderIff | src/graph.cc:313-326 | for every graph: the order left by a failed selection computes the node still selected if and only if that is computed from exactly those nodes, and their depths do not decrease with the number |
| Graphs.FailedSelectionLosesOrder | src/graph.cc:313-326 | in particular it does not if the node still selected is not one that the new node is computed from; evaluating then fails or returns what the buffer of the selected node held before |
| Graphs.ReselectAfterFailure | src/graph.cc:310-341 | selecting the node that is still selected then reports success and leaves the wrong order in place |
| Graphs.AncestorFails | src/graph.cc:360-377 | if a node fails so does everything computed from it |
| Graphs.OrderMeans | src/graph.cc:348-397 | running an order that computes a node leaves the recursive meaning of that node in its buffer, or fails if it has none |
| Graphs.Graph.Evaluate | src/graph.cc:348-397 | the result is that of running the stored order over the buffers, whatever the order is; if it computes the output node this is the recursive meaning of that node, failures included |
| WjCryptSha1.RoundOpIsF | src/WjCryptLib_Sha1.c:71-75 | the formulas of the macros are the functions of section 4.1.1 of FIPS 180-4 |
| WjCryptSha1.RoundStep | src/WjCryptLib_Sha1.c:71-75 | a round that leaves values in place and changes roles is the round of the standard |
| WjCryptSha1.SwapLittleEndian | src/WjCryptLib_Sha1.c:63 | the rotations and masks of blk0 turn a little-endian word into a big-endian one |
| WjCryptSha1.ScheduleNext | src/WjCryptLib_Sha1.c:68 | the word computed in place is the next word of the schedule of 80 words |
| WjCryptSha1.FiveRounds | src/WjCryptLib_Sha1.c:123-142 | after five macros every variable is back in its role |
| WjCryptSha1.TransformFunction | src/WjCryptLib_Sha1.c:97-150 | the state becomes the compression of section 6.1.2 of FIPS 180-4 |
| Sha1Counter.AddCountCounts | src/WjCryptLib_Sha1.c:195-200 | the two words count the bits modulo 2^64 |
| Sha1Counter.BufferedBytes | src/WjCryptLib_Sha1.c:194 | the index computed from the low word is the number of buffered bytes |
| WjCryptSha1.Sha1Context.Initialise | src/WjCryptLib_Sha1.c:161-175 | the context of the empty message |
| WjCryptSha1.Sha1Context.Update | src/WjCryptLib_Sha1.c:183-218 | the context of the message extended by the data, for every size for which the 32-bit sum with the buffered bytes does not wrap |
| WjCryptSha1.Sha1Context.FillAndHash | src/WjCryptLib_Sha1.c:201-211 | buffer and whole blocks are compressed in order; the sum i + 63 stays below 2^32 |
| WjCryptSha1.PadIs | src/WjCryptLib_Sha1.c:241-247 | the bytes appended by the padding loop are the padding of section 5.1.1 |
| WjCryptSha1.Sha1Context.Finalise | src/WjCryptLib_Sha1.c:226-252 | the digest is the hash of the whole message as in FIPS 180-4, for less than 2^61 bytes |
| WjCryptSha1.Sha1Calculate | src/WjCryptLib_Sha1.c:259-272 | the hash of one buffer |
| Bytecode.StepDepth | src/alg_functions.cc:431-528 | statically an instruction ends at the same place; the depths differ by how far a popped count is from 2 |
| Bytecode.RunScannable | src/alg_functions.cc:419-533 | a run that reaches END without underflow and whose counts are at least 2 never underflows in the static scan |
| Bytecode.StackBound | src/alg_functions.cc:419-533 | the bound of the scan is sound for every bytecode whose run never underflows and whose counts are at least 2 at run time |
| Bytecode.BoundHoldsIff | src/alg_functions.cc:419-533 | exactly when a bound holds for a run: the static depth, corrected by how far the popped counts are from 2, stays within it |
| Bytecode.CountThreshold | src/alg_functions.cc:434-453 | the static bound holds for all runs whose counts are at least c if and only if c is at least 2 |
| Bytecode.CountOfOneExceedsBound | src/alg_functions.cc:434-453 | the other side of the condition on counts: with a count of 1 the scan says three entries where the run needs four |
| AnalyticExpressions.FillPowers | src/alg_functions.cc:276-286 | the table of powers, negative ones as inverses, or a failure exactly if a negative power of 0 is asked for |
| AnalyticExpressions.VarPowStep | src/alg_functions.cc:276-286 | the entry VARPOW pushes is the power of its input modulo p; for a negative exponent its product with the positive power is 1 |
| AnalyticExpressions.Execute | src/alg_functions.cc:300-406 | one pass through the switch is one step of the machine on the stack array |
| AnalyticExpressions.Run | src/alg_functions.cc:297-408 | the loop returns the last entry of the run, or fails |
| AnalyticExpressions.Evaluate | src/alg_functions.cc:263-417 | all bytecodes on one stack give their values in order, or fail at the first that does |
| AnalyticExpressions.OutputsAre | src/alg_functions.cc:263-417 | each output is the last entry that its bytecode leaves when run on its own; there are none exactly if one of the runs fails |
| AnalyticExpressions.ComputeMaxStackSize | src/alg_functions.cc:419-533 | the largest depth any of the scans reaches, attained by one of them |
| CompiledExpression.ReadBytes | src/ratexpr_parser.cc:336-358 | reading the bytes that were emitted gives back the number |
| CompiledExpression.PushMachineNumber | src/ratexpr_parser.cc:336-358 | the loop over the bytes emits the number without leading zeros, negative numbers with NEG |
| CompiledExpression.CompileRun | src/ratexpr_parser.cc:376-611 | from any state the code of an expression pushes its value modulo p or fails, and the scan counts one entry |
| CompiledExpression.CompiledCorrect | src/ratexpr_parser.cc:376-611 | a compiled expression never underflows, stays within the static bound, and leaves exactly its value, or fails when a denominator vanishes |
| CompiledExpression.EvaluateExpression | src/alg_functions.cc:263-417 | compiling, bounding the stack and running give the value of the expression |
| Fermat.ChoosePrime | scripts/generate_primes32.py:29-40 | a prime divides its inner binomial coefficients |
| Fermat.FermatLittle | scripts/generate_primes32.py:29-40 | a^(p-1) is 1 modulo a prime p that does not divide a |
| PrimeTable.SomeStep | scripts/generate_primes32.py:29-40 | if a^(2^s d) is 1 modulo a prime then a^d is 1 or some a^(2^r d) is -1 |
| PrimeTable.PrimePasses | scripts/generate_primes32.py:14-42 | the test accepts every prime |
| PrimeTable.CompositePasses | scripts/generate_primes32.py:28-42 | the converse fails: the test accepts 3215031751 = 151 * 751 * 28351, which is below 2^32 |
| PrimeTable.PassedMeans | scripts/generate_primes32.py:16-42 | an accepted number above 37 has no prime factor up to 37 and satisfies a^(n-1) = 1 modulo n for the bases 2, 3, 5 and 7 |
| PrimeTable.CompositeRejected | scripts/generate_primes32.py:28-42 | 4294967293 = 9241 * 464773, which has no small factor, is rejected |
| PrimeTable.SplitPowers | scripts/generate_primes32.py:22-26 | n - 1 = 2^s d with d odd |
| PrimeTable.SplitUnique | scripts/generate_primes32.py:22-26 | there is only one such split |
| PrimeTable.StrongTest | scripts/generate_primes32.py:32-40 | the squarings tell exactly whether n is a strong probable prime to the base |
| PrimeTable.IsPrimeU32 | scripts/generate_primes32.py:14-42 | true exactly for the numbers that pass: small primes, and strong probable primes to the four bases below n without small factors |
| PrimeTable.LargestU32Primes | scripts/generate_primes32.py:45-52 | the largest accepted odd numbers below 2^32, in descending order and without gaps |
| PrimeTable.NoPrimeSkipped | scripts/generate_primes32.py:45-52 | every odd prime between the last element of the table and 2^32 is in the table |
| JsonReader.JsonTokenizer.NextToken | src/json.cc:122-172 | the next token and the new position, for any text |
| JsonReader.Unescape | src/json.cc:50-77 | the escapes are resolved in place as specified, other escapes leaving the character at the writing position |
| JsonText.UnescapeEscaped | src/json.cc:50-77 | resolving the escapes of a text whose slashes and backslashes were escaped gives the text back |
| JsonText.ScanBlanks | src/json.cc:122-130 | blanks before a token do not matter, and nothing else is skipped |
| JsonText.ScanDigits | src/json.cc:163-169 | a run of digits is read as its value, at most the largest 64-bit integer |
| JsonParsers.JsonParser.ParseExponents | src/json.cc:677-685 | exponents in 16 bits and their 32-bit sum, exactly when the text is such a list |
| JsonText.Int16Is | src/json.cc:677-685 | an exponent is the 16-bit integer congruent to the number read |
| JsonParsers.JsonParser.ParsePoly | src/json.cc:659-694 | the first entries of the buffers hold the terms, exactly when the text is a list of so many |
| JsonParsers.JsonParser.ResizeMonomials | src/json.cc:206-216 | the buffer grows to the wanted size, old entries staying |
| JsonParsers.JsonParser.ParseRatFun | src/json.cc:597-653 | a slot gets the function that the text denotes; a zero leaves it the zero function |
| JsonParsers.JsonParser.ParseRatFunList | src/json.cc:546-590 | succeeds exactly on the texts that parse, with the functions they denote |
| JsonGrammar.ParsesIffSpelled | src/json.cc:546-694 | a text parses if and only if its tokens spell a list: brackets, commas and strings in their places and as many entries as the counts say modulo 2^32; and what is read is what they spell |
| JsonGrammar.ExponentsIff | src/json.cc:677-685 | a list of exponents is read if and only if the tokens are so many integers with commas between them |
| JsonGrammar.TermsRead | src/json.cc:659-694 | any spelled list of terms is read |
| JsonGrammar.TermsSpelled | src/json.cc:659-694 | whatever is read as a list of terms is spelled by its tokens |
| JsonWriters.WritePoly | src/json.cc:787-819 | the stream gains the text of the polynomial |
| JsonWriters.WriteRatFun | src/json.cc:821-851 | the stream gains the text of the function, 0 for an empty numerator |
| JsonWriters.WriteRatFunList | src/json.cc:902-928 | the stream holds the text of the list |
| JsonRoundTrip.ScanInteger | src/json.cc:163-169 | the scanner reads back the digits of every integer that fits a long |
| JsonRoundTrip.CoefficientReads | src/json.cc:802-804 | the text of a coefficient denotes the coefficient |
| JsonRoundTrip.ReadExponents | src/json.cc:677-685 | a written exponent list is read back, or reading fails, exactly if one is negative |
| JsonRoundTrip.ReadFun | src/json.cc:597-653 | a written function is read back with its coefficient texts and exponents |
| JsonRoundTrip.RoundTrip | src/json.cc:546-694 | reading a written list gives the same functions if and only if no written exponent is negative; otherwise it fails |

## Left out

- FFMod.MulInverse: the branch that calls FLINT is not part of this model.
- FFMod.ModulusInRange: only the moduli the library's tables contain (32-bit primes and 63-bit primes) are covered.
- MPGcd.RatRec: GMP integers are unbounded integers, `mpz_invert` and `canonicalize` are their mathematical functions.
- NumericReconstruction.ReconstructNumeric: the evaluation is a function of the prime, so a failing prime fails again when the loop repeats it; fewer primes are asked for than the table holds.
- MPFunctions.MPReconstructedPoly.Merge: monomials are values in a list, so moving and clearing the other polynomial is not modelled.
- FunctionCache.UIntCache.ReserveMore: sizes stay below 2^31, where the shift in `next_pow_of_2` is defined; the allocator of the buffers is not modelled.
- FunctionCache.UIntCache.MergeCaches: every merged cache has been used, because the capacity of an unused one is a shift by its EMPTY_ mark.
- FunctionCache.UIntCache.NewEntry: keys are new, as the program's callers guarantee; the load factor 1/2 is compared in integers.
- Sampling.Pack: every sample needs at least one output, because a failure is written behind the flags.
- Sampling.ParallelSample: threads are a split and a merge in any number; contexts, futures, the choice of a thread count and the generation of sample points are not modelled.
- Graphs.Graph.SetInputVars: node 0 is the input node if it exists; deleting it is allowed by the model as by the code.
- Graphs.Graph.SetOutputNode: the cache of reconstruction data is not modelled; `std::sort` is any sort by depth.
- Graphs.Graph.Evaluate: an algorithm is an arbitrary function that may fail; its private data are not modelled. The nodes of the stored order are live, which a deletion after a failed selection can undo.
- WjCryptSha1.Sha1Context.Update: sizes for which the 32-bit sum with the buffered bytes wraps are excluded.
- Bytecode.StackBound: underflow and indices out of range, which the program does not check, are undefined in the model. A run that ends in a division by zero has not seen the rest of the code, so for it the scan has to be defined.
- CompiledExpression.CompiledCorrect: expressions are trees whose constants lie below p; parsing text is not modelled, and an exponent is cut to 32 bits as in `power`.
- AnalyticExpressions.Evaluate: the table of large constants modulo p is an input; filling it again when the prime changes is not modelled.
- PrimeTable.LargestU32Primes: at most as many primes are asked for as the test accepts, where the script would run on below zero; `pow` with three arguments is its mathematical function.
- JsonRoundTrip.RoundTrip: lists, term lists and coefficient texts are shorter than 2^32, the width of the program's counters; the denominator of a function without numerator is not written and so not read.
- JsonText.ReadRational: coefficients are integers or fractions in decimal digits; the wider syntax that GMP accepts is not part of this model.
- JsonParsers.JsonParser.ParseRatFun: a function is its list of terms; the Horner form built from it is not modelled.
- DenseSolver.DenseLinearSolver.Learn1: only the mode that is not restricted to non-homogeneous equations; filling the matrix is a parameter that may fail.
- DenseSolver.DenseLinearSolver.Evaluate: the view holds the rows of the kept equations; the homogeneous mode is fixed when the solver is made.
- SparseSolver.SparseLinearSolver.Learn2: the matrix is already filled when the method starts, or filling it failed; the first pass of the sparse solver, its evaluation, the order by weights and sparse output are not modelled.
- SparseMatrices.SparseMatrix.ToReducedRowEchelon: without a column limit; the variant that stops before back substitution is included, `keep_all_outs` has no effect without a limit.
- SparseSolver.SweepPreserves: requires that no row becomes zero, since the recorded numbering is that of the rows left afterwards.
- `isZeroDimSystem`, `reset_needed`, `removeZeroDeps`, `sortRows`: they would add only simple members.
- `set_entry`, `prune_graph`, degrees, learning of whole graphs and the session's bookkeeping.
- Horner evaluation, functional reconstruction of one prime, list algorithms, file formats other than the list of functions, and the C, Python and Mathematica interfaces.
