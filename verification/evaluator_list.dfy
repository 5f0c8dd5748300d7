/**
 * The evaluators run over the dataset (lines 63-65): always the span
 * scorer over all answer bounds, and a RecordSpanPrediction at the first
 * bound only when an official output file is requested.
 */
module EvaluatorList {
  import opened Wrappers
  import opened EvalData
  import opened SpanRecording

  /**
   * An evaluator's configuration. The span scorer is defined outside the
   * modelled code; only the arguments it is built with are kept.
   */
  datatype EvaluatorConfig =
    | SpanEvaluator(bounds: seq<int>, textEval: string)
    | RecordSpans(recorder: RecordSpanPrediction)

  /**
   * `answerBounds[0]` is read only when the recorder is added; the command
   * line accepts one bound or more, so it exists then.
   */
  function Evaluators(answerBounds: seq<int>, officialOutput: Option<string>): (r: seq<EvaluatorConfig>)
    requires officialOutput.Some? ==> |answerBounds| > 0
    ensures |r| == (if officialOutput.Some? then 2 else 1)
    ensures r[0] == SpanEvaluator(answerBounds, "squad")
    ensures (exists i :: 0 <= i < |r| && r[i].RecordSpans?) <==> officialOutput.Some?
    ensures forall i :: 0 <= i < |r| && r[i].RecordSpans? ==> i == |r| - 1 && r[i].recorder.bound == answerBounds[0]
  {
    var evaluators := [SpanEvaluator(answerBounds, "squad")];
    if officialOutput.Some? then
      var r := evaluators + [RecordSpans(RecordSpanPrediction(answerBounds[0]))];
      assert r[1].RecordSpans?;
      r
    else evaluators
  }

  /**
   * When an output file is requested, the recorder asks each prediction for
   * the best span and score under the leading answer bound.
   */
  lemma RecorderRequestsLeadingBound<Pred>(answerBounds: seq<int>, output: string, prediction: Pred)
    requires |answerBounds| > 0
    ensures var r := Evaluators(answerBounds, Some(output));
            r[|r| - 1].RecordSpans?
            && r[|r| - 1].recorder.TensorsNeeded(prediction)
               == map[Spans := BestSpan(prediction, answerBounds[0]), ModelScores := BestSpanScore(prediction, answerBounds[0])]
  {
  }

}
