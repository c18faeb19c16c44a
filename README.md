# LearnerEvaluator: split, evaluate, average

This project models the generic evaluation engine of the `evaluation` module of spaint,
the class template `evaluation::LearnerEvaluator<Example, Result>`. A learner evaluator
asks its split generator for splits of the example set, evaluates the learner once per
split through the hook `evaluate_on_split`, collects the per-split results in a vector, and
hands that vector to the hook `average_results`, whose answer it returns.

The model has three modules:

- `Outcomes`: a call into a collaborator either returns a value or throws an exception
  (`Outcome`). `FirstThrown` finds the call at which a loop of such calls is cut short.
- `Completion`: the order in which the iterations of the OpenMP loop reach the critical
  section. `Arrivals` gives the results vector for a schedule (`IsSchedule`). The module
  proves that the schedules give exactly the permutations of the in-order results. It also
  proves that an averaging function that is unchanged by swapping two neighbours
  (`SwapInvariant`) is unchanged by every permutation (`OrderInsensitive`), and the converse.
- `Evaluation`: the class `LearnerEvaluator`. Its `const` fields are the split generator,
  fixed at construction, and the two hooks that a concrete evaluator overrides. `Evaluate` is
  the counted loop. It returns the outcome and a ghost log of the calls it made into the
  three collaborators. Its contract ties both to `EvaluationOutcome` and `EvaluationCalls`,
  and the lemmas beside it state the protocol in terms of those two functions.

Modelling decisions:

- The split generator and both hooks are side-effect-free functions given to the
  constructor. In the source, the hooks are pure virtual `const` member functions. `Split`
  is a type parameter, because the split type is declared in a file outside this model.
- A collaborator that throws makes `evaluate` throw. In the sequential loop, the splits
  after the failing one are never evaluated and `average_results` is never called.
- `int size = static_cast<int>(splits.size())` is modelled as a two's-complement conversion
  (`ToInt32`). The loop runs `IterationCount(|splits|)` times. That is every split when the
  count fits in an `int`; for 2^31 to 2^32 - 1 splits it is none
  (`SplitCountOverflowSkipsEvaluation`).
- The code has no guard for an empty example set or an empty split sequence. Nothing fails
  on an empty example set: with zero splits, `average_results` receives the empty vector
  (`NoSplitsAveragesEmpty`).
- `Evaluate` has no `modifies` clause, so it changes nothing in the heap. The examples are a
  value, and the generator and hooks are constants. Every logged call to `evaluate_on_split`
  receives the caller's examples unchanged (`EachSplitEvaluatedOnce`).

## Model

| member | source | states |
|---|---|---|
| `Outcomes.FirstThrown` | modules/evaluation/include/evaluation/core/LearnerEvaluator.h:84-86 | the index at which a run of calls is cut short: every earlier call returned, and the call at that index threw (or the index is the length when none threw) |
| `Evaluation.ToInt32` | modules/evaluation/include/evaluation/core/LearnerEvaluator.h:79 | `static_cast<int>` of the split count: a value in the `int` range that is congruent to the count modulo 2^32, at most the count, and equal to it when the count fits |
| `Evaluation.IterationCount` | modules/evaluation/include/evaluation/core/LearnerEvaluator.h:79-84 | the loop over `i < size` runs at most once per split; exactly once per split when the count fits in an `int`; not at all for 2^31 to 2^32 - 1 splits |
| `Evaluation.LearnerEvaluator.constructor` | modules/evaluation/include/evaluation/core/LearnerEvaluator.h:37-39 | the split generator given is the one stored (and, in this model, the two hooks too) |
| `Evaluation.LearnerEvaluator.Evaluate` | modules/evaluation/include/evaluation/core/LearnerEvaluator.h:75-95 | the loop returns `EvaluationOutcome(examples)` and logs exactly `EvaluationCalls(examples)`; it modifies nothing, so the examples and the generator are unchanged |
| `Evaluation.LearnerEvaluator.SplitCallsOnce` | modules/evaluation/include/evaluation/core/LearnerEvaluator.h:84-86 | in the calls for the first k splits, the call for each split index below k occurs exactly once |
| `Evaluation.LearnerEvaluator.GeneratorCalledOnceFirst` | modules/evaluation/include/evaluation/core/LearnerEvaluator.h:78 | the generator is called first, exactly once, with the number of examples; if it throws, nothing else is called and `evaluate` throws its exception |
| `Evaluation.LearnerEvaluator.EachSplitEvaluatedOnce` | modules/evaluation/include/evaluation/core/LearnerEvaluator.h:79-86 | when the split count fits in an `int` and no evaluation throws, each split index is evaluated exactly once, with the caller's examples and that split; no other evaluation happens |
| `Evaluation.LearnerEvaluator.AverageCalledOnceLast` | modules/evaluation/include/evaluation/core/LearnerEvaluator.h:77-94 | when no evaluation throws, `average_results` is called exactly once, as the last call, on a vector with one result per evaluated split in split order (so of length `splits.size()` when that fits in an `int`); `evaluate` returns its answer |
| `Evaluation.LearnerEvaluator.SplitFailureFailsEvaluate` | modules/evaluation/include/evaluation/core/LearnerEvaluator.h:84-94 | if the evaluation of any split in the loop's range throws, whichever split it is, `evaluate` throws and `average_results` is never called |
| `Evaluation.LearnerEvaluator.FirstSplitFailureReported` | modules/evaluation/include/evaluation/core/LearnerEvaluator.h:84-91 | when split f is the first to throw, `evaluate` throws that exception after evaluating splits 0 to f in order, and no later split is evaluated |
| `Evaluation.LearnerEvaluator.NoSplitsAveragesEmpty` | modules/evaluation/include/evaluation/core/LearnerEvaluator.h:77-94 | with zero splits, whatever the number of examples, the calls are the generator and then `average_results` of the empty vector, whose answer is returned |
| `Evaluation.LearnerEvaluator.SplitCountOverflowSkipsEvaluation` | modules/evaluation/include/evaluation/core/LearnerEvaluator.h:79-84 | with 2^31 to 2^32 - 1 splits, the narrowed loop bound is negative: no split is evaluated and the empty vector is averaged |
| `Evaluation.LearnerEvaluator.AnyCompletionOrderSameAverage` | modules/evaluation/include/evaluation/core/LearnerEvaluator.h:81-94 | under any order in which the parallel iterations append, the vector is a permutation of the in-order results; if `average_results` is unchanged by swapping neighbours, it returns what the sequential loop returns |
| `Completion.Arrivals` | modules/evaluation/include/evaluation/core/LearnerEvaluator.h:81-91 | the vector built when iterations enter the critical section in the order a schedule gives has one entry per iteration and is a permutation of the per-iteration results |
| `Completion.InOrder` | modules/evaluation/include/evaluation/core/LearnerEvaluator.h:84-91 | finishing the iterations one after another in index order is a schedule |
| `Completion.InOrderArrivals` | modules/evaluation/include/evaluation/core/LearnerEvaluator.h:84-91 | without OpenMP (in-order completion) the vector holds the results in split order |
| `Completion.ScheduleFor` | modules/evaluation/include/evaluation/core/LearnerEvaluator.h:81-91 | every permutation of the results is the vector of some schedule, so the schedules give exactly the permutations |
| `Completion.PermutationInvariant` | modules/evaluation/include/evaluation/core/LearnerEvaluator.h:56 | an averaging function unchanged by swapping two neighbours gives equal answers on any two permutations of the same results |
| `Completion.SwapInvariantIffOrderInsensitive` | modules/evaluation/include/evaluation/core/LearnerEvaluator.h:56 | being unchanged by neighbour swaps is equivalent to treating the results as a multiset (both directions) |
| `Completion.ArrivalOrderIrrelevant` | modules/evaluation/include/evaluation/core/LearnerEvaluator.h:81-94 | a swap-invariant averaging function gives the same answer on the vector of any schedule as on the in-order results |

## Left out

- Threads: the OpenMP `parallel for` and `critical` section (LearnerEvaluator.h:81-83, 88-90) are not modelled as threads or locks. Only the order in which results are appended is modelled (`Completion`).
- An exception thrown by `evaluate_on_split` inside the OpenMP parallel region cannot leave `evaluate`: the OpenMP standard leaves the outcome unspecified, and GCC and Clang call `std::terminate`. The model gives the sequential build's behaviour, where the exception propagates.
- The split generator: `SplitGenerator.h` is not part of this model. The generator is a fixed function of the example count. A generator with internal state, such as a random one that returns different splits on each call, is not captured. Split indices are never checked against the example count, and the model places no constraint on them.
- The concrete hooks and the numeric averaging of results: `Result` stays a type parameter, and floating-point arithmetic is not modelled.
- `Example_CPtr` (a `boost::shared_ptr<const Example>`): examples are modelled as values. Aliasing between shared handles and null handles are not modelled.
- Virtual dispatch: the two pure virtual hooks are given to the constructor as functions instead of being overridden in a subclass. The virtual destructor (LearnerEvaluator.h:46) has nothing to model.
- `SpaintInteractor.h`, `ImageProcessor_CPU.h`, `SLAMPipeline.cpp` and `PairwisePotentialCalculator.h` are not part of this model. They hold declarations, hardware dispatch or composition glue, with no algorithm of the evaluation engine.
