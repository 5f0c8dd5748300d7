/**
 * RecordSpanPrediction: the evaluator that computes no metric and records,
 * for every question of a batch, its id, the predicted span and the model's
 * confidence in it, so that answers can later be written out by question id.
 */
module SpanRecording {
  import opened Wrappers
  import opened EvalData

  datatype RecordSpanPrediction = RecordSpanPrediction(bound: int) {

    /** The tensors this evaluator needs: best span under `bound` and its score. */
    function TensorsNeeded<Pred>(prediction: Pred): (r: map<string, Tensor<Pred>>)
      ensures r.Keys == {Spans, ModelScores}
      ensures r[Spans] == BestSpan(prediction, bound)
      ensures r[ModelScores] == BestSpanScore(prediction, bound)
    {
      var (span, score) := GetBestSpan(prediction, bound);
      map[Spans := span, ModelScores := score]
    }

    /**
     * The per-batch evaluation. `realized` holds the realized tensors by
     * name; a missing one raises KeyError, `spans` being looked up first.
     * `trueLen` is accepted and, as in the source, not used.
     */
    function Evaluate<P>(data: seq<Question<P>>, trueLen: int, realized: map<string, seq<Cell>>): (r: Result<Evaluation, Error>)
      ensures r.Ok? <==> Spans in realized && ModelScores in realized
      ensures Spans !in realized ==> r == Err(MissingField(Spans))
      ensures Spans in realized && ModelScores !in realized ==> r == Err(MissingField(ModelScores))
      ensures r.Ok? ==> r.value.scalars == map[]
      ensures r.Ok? ==> r.value.perSample.Keys == {ModelConf, PredictedSpan, QuestionIdField}
      ensures r.Ok? ==> r.value.perSample[ModelConf] == realized[ModelScores]
      ensures r.Ok? ==> r.value.perSample[PredictedSpan] == realized[Spans]
      ensures r.Ok? ==> |r.value.perSample[QuestionIdField]| == |data|
      ensures r.Ok? ==> forall i :: 0 <= i < |data| ==> r.value.perSample[QuestionIdField][i] == QuestionId(data[i].questionId)
    {
      if Spans !in realized then Err(MissingField(Spans))
      else if ModelScores !in realized then Err(MissingField(ModelScores))
      else
        var spans, modelScores := realized[Spans], realized[ModelScores];
        var results := map[ModelConf := modelScores,
                           PredictedSpan := spans,
                           QuestionIdField := seq(|data|, i requires 0 <= i < |data| => QuestionId(data[i].questionId))];
        Ok(Evaluation(map[], results))
    }
  }

  /**
   * Two recorders issue identical tensor requests exactly when their bounds
   * agree, so a runner that deduplicates requests computes them once. The
   * "only if" direction rests on requests being free terms over the
   * prediction and the bound (distinct bounds give distinct tensors), which
   * is how this model represents the lazy tensors.
   */
  lemma SameRequestsIffSameBound<Pred>(a: RecordSpanPrediction, b: RecordSpanPrediction, prediction: Pred)
    ensures a.TensorsNeeded(prediction) == b.TensorsNeeded(prediction) <==> a.bound == b.bound
  {
    if a.TensorsNeeded(prediction) == b.TensorsNeeded(prediction) {
      assert BestSpan(prediction, a.bound) == BestSpan(prediction, b.bound);
    }
  }

  /**
   * Delivering realized values for exactly the requested tensors is enough:
   * evaluation then never raises.
   */
  lemma RequestedTensorsSuffice<Pred, P>(rec: RecordSpanPrediction, prediction: Pred, data: seq<Question<P>>, trueLen: int,
                                         realized: map<string, seq<Cell>>)
    requires realized.Keys == rec.TensorsNeeded(prediction).Keys
    ensures rec.Evaluate(data, trueLen, realized).Ok?
  {
  }

  /** Joins the realized columns of two consecutive batches, field by field. */
  function ConcatColumns(a: map<string, seq<Cell>>, b: map<string, seq<Cell>>): (r: map<string, seq<Cell>>)
    ensures r.Keys == a.Keys * b.Keys
    ensures forall k :: k in r ==> r[k] == a[k] + b[k]
  {
    map k | k in a.Keys * b.Keys :: a[k] + b[k]
  }

  /**
   * Positional alignment across batches: evaluating two batches as one gives
   * the concatenation of their per-sample columns, field by field, so the
   * question ids stay aligned with the recorded spans and confidences.
   */
  lemma EvaluateConcatenatesBatches<P>(rec: RecordSpanPrediction, d1: seq<Question<P>>, d2: seq<Question<P>>,
                                       n1: int, n2: int, k1: map<string, seq<Cell>>, k2: map<string, seq<Cell>>)
    requires rec.Evaluate(d1, n1, k1).Ok? && rec.Evaluate(d2, n2, k2).Ok?
    ensures rec.Evaluate(d1 + d2, n1 + n2, ConcatColumns(k1, k2)).Ok?
    ensures var e1, e2 := rec.Evaluate(d1, n1, k1).value, rec.Evaluate(d2, n2, k2).value;
            var e := rec.Evaluate(d1 + d2, n1 + n2, ConcatColumns(k1, k2)).value;
            e.perSample == ConcatColumns(e1.perSample, e2.perSample) && e.scalars == map[]
  {
    var e1, e2 := rec.Evaluate(d1, n1, k1).value, rec.Evaluate(d2, n2, k2).value;
    var e := rec.Evaluate(d1 + d2, n1 + n2, ConcatColumns(k1, k2)).value;
    var joined := ConcatColumns(e1.perSample, e2.perSample);
    assert e.perSample[QuestionIdField] == joined[QuestionIdField];
  }

}
