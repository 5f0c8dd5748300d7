/**
 * The values an evaluator works with: the questions of a batch, the lazy
 * tensors it asks the model for, the realized per-sample values it gets back,
 * and the Evaluation record (scalars plus aligned per-sample columns).
 */
module EvalData {

  /** A question of the evaluated corpus; the paragraph type is left abstract. */
  datatype Question<P> = Question(questionId: string, paragraph: P)

  /**
   * A lazy tensor: the result of asking a prediction for its best span under
   * a length bound, or for that span's score. The constructors are free
   * terms, so two requests are equal exactly when prediction and bound agree.
   */
  datatype Tensor<Pred> = BestSpan(prediction: Pred, bound: int) | BestSpanScore(prediction: Pred, bound: int)

  /** `prediction.get_best_span(bound)`: the (span, score) pair of lazy tensors. */
  function GetBestSpan<Pred>(prediction: Pred, bound: int): (Tensor<Pred>, Tensor<Pred>)
  {
    (BestSpan(prediction, bound), BestSpanScore(prediction, bound))
  }

  /** One entry of a realized per-sample column. */
  datatype Cell = Score(score: real) | SpanAt(start: int, end: int) | QuestionId(id: string)

  /** `scalars`: metric name to value; `perSample`: field name to a column aligned with the examples. */
  datatype Evaluation = Evaluation(scalars: map<string, real>, perSample: map<string, seq<Cell>>)

  /**
   * The exceptions the modelled code can raise: a dictionary lookup of a
   * missing field (KeyError), unpacking a value that is not a (start, end)
   * pair, and looking up a question id that has no paragraph (KeyError).
   */
  datatype Error = MissingField(name: string) | NotAPair(value: Cell) | UnknownQuestion(key: Cell)

  // Names of the realized tensors and of the per-sample fields.
  const Spans := "spans"
  const ModelScores := "model_scores"
  const ModelConf := "model_conf"
  const PredictedSpan := "predicted_span"
  const QuestionIdField := "question_id"

  /** The set of question ids of a sequence of questions. */
  function QuestionIds<P>(qs: seq<Question<P>>): set<string>
  {
    set i | 0 <= i < |qs| :: qs[i].questionId
  }

}
