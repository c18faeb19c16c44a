/**
 * The split-and-aggregate evaluation engine: ask a split generator for splits of the example
 * set, evaluate the learner once per split, and average the per-split results.
 */
module Evaluation {

  import opened Outcomes
  import opened Completion

  /** The largest value of a C++ `int` (32 bits, two's complement). */
  const IntMax: int := 0x7fff_ffff
  const IntRange: int := 0x1_0000_0000

  /**
   * `static_cast<int>` of a non-negative count: the one `int` value congruent to n modulo 2^32
   * (the conversion every two's-complement compiler performs, and the one C++20 prescribes).
   */
  function ToInt32(n: nat): (v: int)
    ensures -IntMax - 1 <= v <= IntMax
    ensures (n - v) % IntRange == 0
    ensures v <= n
    ensures n <= IntMax ==> v == n
  {
    var m := n % IntRange;
    if m <= IntMax then m else m - IntRange
  }

  /**
   * How many times `for (int i = 0; i < size; ++i)` runs when `size` is the split count cast
   * to `int`: every split when the count fits in an `int`, otherwise possibly fewer.
   */
  function IterationCount(splitCount: nat): (k: nat)
    ensures k <= splitCount
    ensures splitCount <= IntMax ==> k == splitCount
    ensures IntMax < splitCount < IntRange ==> k == 0
  {
    var size := ToInt32(splitCount);
    if size < 0 then 0 else size
  }

  /** One call the evaluator makes into its collaborators, as recorded in the call log. */
  datatype Call<Example, Split, Result> =
    | GenerateSplits(exampleCount: nat)
    | EvaluateOnSplit(index: nat, examples: seq<Example>, split: Split)
    | AverageResults(results: seq<Result>)

  /**
   * A learner evaluator. The split generator is fixed at construction; the two hooks, which a
   * concrete evaluator supplies by overriding them, are fixed at construction too. All three
   * are side-effect free and may throw.
   */
  class LearnerEvaluator<Example, Split, Result(!new)> {
    /** The generator used to split the example set: maps the example count to the splits. */
    const splitGenerator: nat -> Outcome<seq<Split>>
    /** Evaluates the learner on one split of the examples. */
    const evaluateOnSplit: (seq<Example>, Split) -> Outcome<Result>
    /** Averages the results of the individual splits. */
    const averageResults: seq<Result> -> Outcome<Result>

    constructor (splitGenerator: nat -> Outcome<seq<Split>>,
                 evaluateOnSplit: (seq<Example>, Split) -> Outcome<Result>,
                 averageResults: seq<Result> -> Outcome<Result>)
      ensures this.splitGenerator == splitGenerator
      ensures this.evaluateOnSplit == evaluateOnSplit
      ensures this.averageResults == averageResults
    {
      this.splitGenerator := splitGenerator;
      this.evaluateOnSplit := evaluateOnSplit;
      this.averageResults := averageResults;
    }

    /** What evaluate_on_split gives for each of the first k splits, in split order. */
    function SplitOutcomes(examples: seq<Example>, splits: seq<Split>, k: nat): seq<Outcome<Result>>
      requires k <= |splits|
    {
      seq(k, i requires 0 <= i < k => evaluateOnSplit(examples, splits[i]))
    }

    /** The calls that evaluate the first k splits, one per split, in split order. */
    ghost function SplitCalls(examples: seq<Example>, splits: seq<Split>, k: nat): seq<Call<Example, Split, Result>>
      requires k <= |splits|
    {
      seq(k, i requires 0 <= i < k => EvaluateOnSplit(i, examples, splits[i]))
    }

    /**
     * The result of evaluating on `examples`: the generator's exception if it throws; otherwise
     * the exception of the first split whose evaluation throws; otherwise the average of the
     * per-split results, in split order.
     */
    function EvaluationOutcome(examples: seq<Example>): Outcome<Result> {
      match splitGenerator(|examples|)
      case Threw(e) => Threw(e)
      case Returned(splits) =>
        var outs := SplitOutcomes(examples, splits, IterationCount(|splits|));
        var f := FirstThrown(outs);
        if f < |outs| then outs[f] else averageResults(Values(outs))
    }

    /**
     * The calls evaluating on `examples` makes, in order: the generator; then each split up to
     * and including the first one that throws, or all of them; then, if none threw, the average.
     */
    ghost function EvaluationCalls(examples: seq<Example>): seq<Call<Example, Split, Result>> {
      match splitGenerator(|examples|)
      case Threw(_) => [GenerateSplits(|examples|)]
      case Returned(splits) =>
        var k := IterationCount(|splits|);
        var outs := SplitOutcomes(examples, splits, k);
        var f := FirstThrown(outs);
        if f < k then [GenerateSplits(|examples|)] + SplitCalls(examples, splits, f + 1)
        else [GenerateSplits(|examples|)] + SplitCalls(examples, splits, k) + [AverageResults(Values(outs))]
    }

    /**
     * Evaluates the learner on the examples. `calls` logs every call into the collaborators.
     * Nothing in the heap changes: the examples are a value and the collaborators are constants.
     */
    method Evaluate(examples: seq<Example>) returns (r: Outcome<Result>, ghost calls: seq<Call<Example, Split, Result>>)
      ensures r == EvaluationOutcome(examples)
      ensures calls == EvaluationCalls(examples)
    {
      var results: seq<Result> := [];
      var generated := splitGenerator(|examples|);
      calls := [GenerateSplits(|examples|)];
      if generated.Threw? {
        r := Threw(generated.exception);
        return;
      }
      var splits := generated.value;
      var size := ToInt32(|splits|);
      ghost var k := IterationCount(|splits|);

      var i := 0;
      while i < size
        invariant 0 <= i <= k
        invariant forall j :: 0 <= j < i ==> evaluateOnSplit(examples, splits[j]).Returned?
        invariant results == Values(SplitOutcomes(examples, splits, i))
        invariant calls == [GenerateSplits(|examples|)] + SplitCalls(examples, splits, i)
      {
        var evaluationResult := evaluateOnSplit(examples, splits[i]);
        calls := calls + [EvaluateOnSplit(i, examples, splits[i])];
        assert SplitCalls(examples, splits, i + 1) == SplitCalls(examples, splits, i) + [EvaluateOnSplit(i, examples, splits[i])];
        if evaluationResult.Threw? {
          ghost var outs := SplitOutcomes(examples, splits, k);
          assert FirstThrown(outs) == i by {
            assert outs[i].Threw?;
            assert forall j :: 0 <= j < i ==> outs[j].Returned?;
          }
          r := evaluationResult;
          return;
        }
        results := results + [evaluationResult.value];
        i := i + 1;
      }
      assert FirstThrown(SplitOutcomes(examples, splits, k)) == k;
      calls := calls + [AverageResults(results)];
      r := averageResults(results);
    }

    /** Each of the first k splits is evaluated exactly once by SplitCalls(.., k). */
    lemma {:induction false} SplitCallsOnce(examples: seq<Example>, splits: seq<Split>, k: nat, i: nat)
      requires i < k <= |splits|
      ensures multiset(SplitCalls(examples, splits, k))[EvaluateOnSplit(i, examples, splits[i])] == 1
      decreases k
    {
      var c := EvaluateOnSplit(i, examples, splits[i]);
      var last := EvaluateOnSplit(k - 1, examples, splits[k - 1]);
      assert SplitCalls(examples, splits, k) == SplitCalls(examples, splits, k - 1) + [last];
      if i < k - 1 {
        SplitCallsOnce(examples, splits, k - 1, i);
      } else {
        assert c !in SplitCalls(examples, splits, k - 1);
      }
    }

    /**
     * The generator is called first, exactly once, with the number of examples; when it
     * throws, nothing else is called and evaluate throws the same exception.
     */
    lemma GeneratorCalledOnceFirst(examples: seq<Example>)
      ensures |EvaluationCalls(examples)| >= 1
      ensures EvaluationCalls(examples)[0] == GenerateSplits(|examples|)
      ensures forall j :: 1 <= j < |EvaluationCalls(examples)| ==> !EvaluationCalls(examples)[j].GenerateSplits?
      ensures splitGenerator(|examples|).Threw? ==>
                EvaluationCalls(examples) == [GenerateSplits(|examples|)] &&
                EvaluationOutcome(examples) == Threw(splitGenerator(|examples|).exception)
    {
    }

    /**
     * When the split count fits in an `int` and no split evaluation throws, every split is
     * evaluated exactly once, on the caller's examples and that split, and no other
     * evaluation takes place.
     */
    lemma EachSplitEvaluatedOnce(examples: seq<Example>, splits: seq<Split>)
      requires splitGenerator(|examples|) == Returned(splits)
      requires |splits| <= IntMax
      requires forall i :: 0 <= i < |splits| ==> evaluateOnSplit(examples, splits[i]).Returned?
      ensures forall i :: 0 <= i < |splits| ==>
                multiset(EvaluationCalls(examples))[EvaluateOnSplit(i, examples, splits[i])] == 1
      ensures forall c :: c in EvaluationCalls(examples) && c.EvaluateOnSplit? ==>
                c.index < |splits| && c == EvaluateOnSplit(c.index, examples, splits[c.index])
    {
      var outs := SplitOutcomes(examples, splits, |splits|);
      assert FirstThrown(outs) == |splits|;
      var calls := EvaluationCalls(examples);
      var evaluated := SplitCalls(examples, splits, |splits|);
      var gen, avg := GenerateSplits(|examples|), AverageResults(Values(outs));
      assert calls == [gen] + evaluated + [avg];
      forall i | 0 <= i < |splits|
        ensures multiset(calls)[EvaluateOnSplit(i, examples, splits[i])] == 1
      {
        assert multiset(calls) == multiset{gen} + multiset(evaluated) + multiset{avg};
        SplitCallsOnce(examples, splits, |splits|, i);
      }
      forall c | c in calls && c.EvaluateOnSplit?
        ensures c.index < |splits| && c == EvaluateOnSplit(c.index, examples, splits[c.index])
      {
        assert c in evaluated;
      }
    }

    /**
     * When no split evaluation throws, average_results is called exactly once, as the last
     * call, on one result per evaluated split, in split order; its answer is evaluate's.
     */
    lemma AverageCalledOnceLast(examples: seq<Example>, splits: seq<Split>)
      requires splitGenerator(|examples|) == Returned(splits)
      requires forall i :: 0 <= i < IterationCount(|splits|) ==> evaluateOnSplit(examples, splits[i]).Returned?
      ensures var calls := EvaluationCalls(examples);
              |calls| == IterationCount(|splits|) + 2 &&
              calls[|calls| - 1].AverageResults? &&
              (forall j :: 0 <= j < |calls| - 1 ==> !calls[j].AverageResults?) &&
              var rs := calls[|calls| - 1].results;
              |rs| == IterationCount(|splits|) &&
              (forall i :: 0 <= i < |rs| ==> evaluateOnSplit(examples, splits[i]) == Returned(rs[i])) &&
              EvaluationOutcome(examples) == averageResults(rs)
    {
    }

    /**
     * If any split evaluation throws, evaluate throws too and average_results is never
     * called, whichever split it is.
     */
    lemma SplitFailureFailsEvaluate(examples: seq<Example>, splits: seq<Split>, i: nat)
      requires splitGenerator(|examples|) == Returned(splits)
      requires i < IterationCount(|splits|)
      requires evaluateOnSplit(examples, splits[i]).Threw?
      ensures EvaluationOutcome(examples).Threw?
      ensures forall c :: c in EvaluationCalls(examples) ==> !c.AverageResults?
    {
      var outs := SplitOutcomes(examples, splits, IterationCount(|splits|));
      assert outs[i].Threw?;
    }

    /**
     * When split f is the first whose evaluation throws, evaluate throws its exception after
     * evaluating splits 0..f in order, and the splits after f are never evaluated.
     */
    lemma FirstSplitFailureReported(examples: seq<Example>, splits: seq<Split>, f: nat)
      requires splitGenerator(|examples|) == Returned(splits)
      requires f < IterationCount(|splits|)
      requires evaluateOnSplit(examples, splits[f]).Threw?
      requires forall j :: 0 <= j < f ==> evaluateOnSplit(examples, splits[j]).Returned?
      ensures EvaluationOutcome(examples) == evaluateOnSplit(examples, splits[f])
      ensures |EvaluationCalls(examples)| == f + 2
      ensures forall j :: 1 <= j < f + 2 ==>
                EvaluationCalls(examples)[j] == EvaluateOnSplit(j - 1, examples, splits[j - 1])
    {
      var outs := SplitOutcomes(examples, splits, IterationCount(|splits|));
      assert FirstThrown(outs) == f by {
        assert outs[f].Threw?;
        assert forall j :: 0 <= j < f ==> outs[j].Returned?;
      }
    }

    /**
     * There is no guard for an empty split sequence (nor for an empty example set): with no
     * splits, the loop body never runs and average_results is applied to the empty vector.
     */
    lemma NoSplitsAveragesEmpty(examples: seq<Example>)
      requires splitGenerator(|examples|) == Returned([])
      ensures EvaluationCalls(examples) == [GenerateSplits(|examples|), AverageResults([])]
      ensures EvaluationOutcome(examples) == averageResults([])
    {
    }

    /**
     * The split count is narrowed to `int` before the loop: between 2^31 and 2^32 - 1 splits
     * make it negative, so no split is evaluated and the empty vector is averaged.
     */
    lemma SplitCountOverflowSkipsEvaluation(examples: seq<Example>, splits: seq<Split>)
      requires splitGenerator(|examples|) == Returned(splits)
      requires IntMax < |splits| < IntRange
      ensures EvaluationCalls(examples) == [GenerateSplits(|examples|), AverageResults([])]
      ensures EvaluationOutcome(examples) == averageResults([])
    {
    }

    /**
     * Under OpenMP the loop's iterations append their results in whatever order they finish.
     * For any such order, the vector is a permutation of the in-order results, and an
     * averaging hook that ignores the order of neighbours gives what the sequential loop gives.
     */
    lemma AnyCompletionOrderSameAverage(examples: seq<Example>, splits: seq<Split>, picks: seq<nat>)
      requires splitGenerator(|examples|) == Returned(splits)
      requires forall i :: 0 <= i < IterationCount(|splits|) ==> evaluateOnSplit(examples, splits[i]).Returned?
      requires IsSchedule(picks, IterationCount(|splits|))
      requires SwapInvariant(averageResults)
      ensures var inOrder := Values(SplitOutcomes(examples, splits, IterationCount(|splits|)));
              var collected := Arrivals(inOrder, picks);
              multiset(collected) == multiset(inOrder) &&
              averageResults(collected) == EvaluationOutcome(examples)
    {
      var k := IterationCount(|splits|);
      var outs := SplitOutcomes(examples, splits, k);
      assert FirstThrown(outs) == k;
      ArrivalOrderIrrelevant(averageResults, Values(outs), picks);
    }
  }
}
