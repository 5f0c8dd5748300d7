/**
 * The official prediction file: question id to answer text, the shape the
 * SQuAD v1.1 evaluation script reads. First every question's paragraph is
 * indexed by question id; then each recorded (question id, span) pair is
 * turned into the span's original text. Later writes to the same id win.
 */
module OfficialOutput {
  import opened Wrappers
  import opened EvalData
  import SpanRecording

  /** `i` is the last position of `qs` holding its question id. */
  predicate IsLastQuestion<P>(qs: seq<Question<P>>, i: int)
  {
    0 <= i < |qs| && forall j :: i < j < |qs| ==> qs[j].questionId != qs[i].questionId
  }

  /** The question id to paragraph dictionary, filled in order. */
  function ParagraphIndex<P>(qs: seq<Question<P>>): (m: map<string, P>)
    ensures m.Keys == QuestionIds(qs)
  {
    if qs == [] then map[]
    else
      var last := qs[|qs| - 1];
      var rest := ParagraphIndex(qs[..|qs| - 1]);
      assert QuestionIds(qs) == QuestionIds(qs[..|qs| - 1]) + {last.questionId} by {
        forall q | q in QuestionIds(qs) ensures q in QuestionIds(qs[..|qs| - 1]) + {last.questionId} {
          var i :| 0 <= i < |qs| && qs[i].questionId == q;
          if i < |qs| - 1 { assert qs[..|qs| - 1][i] == qs[i]; }
        }
      }
      rest[last.questionId := last.paragraph]
  }

  /** Every question id is mapped to the paragraph of its last occurrence. */
  lemma {:induction false} ParagraphIndexLastWins<P>(qs: seq<Question<P>>, i: int)
    requires IsLastQuestion(qs, i)
    ensures qs[i].questionId in ParagraphIndex(qs)
    ensures ParagraphIndex(qs)[qs[i].questionId] == qs[i].paragraph
    decreases |qs|
  {
    if i < |qs| - 1 {
      var front := qs[..|qs| - 1];
      assert IsLastQuestion(front, i);
      ParagraphIndexLastWins(front, i);
    }
  }

  /** Why pair `(qId, span)` cannot be written, if it cannot. */
  function StepError<P>(index: map<string, P>, qId: Cell, span: Cell): (e: Option<Error>)
    ensures e == None <==> span.SpanAt? && qId.QuestionId? && qId.id in index
  {
    if !span.SpanAt? then Some(NotAPair(span))
    else if !(qId.QuestionId? && qId.id in index) then Some(UnknownQuestion(qId))
    else None
  }

  /**
   * The answer dictionary after the first `n` zipped pairs, or the error of
   * the first pair that fails.
   */
  function AnswersUpTo<P>(index: map<string, P>, qIds: seq<Cell>, spans: seq<Cell>, n: nat,
                          getText: (P, int, int) -> string): Result<map<string, string>, Error>
    requires n <= |qIds| && n <= |spans|
  {
    if n == 0 then Ok(map[])
    else
      match AnswersUpTo(index, qIds, spans, n - 1, getText)
      case Err(e) => Err(e)
      case Ok(m) =>
        match StepError(index, qIds[n - 1], spans[n - 1])
        case Some(e) => Err(e)
        case None =>
          var q, s := qIds[n - 1].id, spans[n - 1];
          Ok(m[q := getText(index[q], s.start, s.end)])
  }

  /** The whole loop: `zip` stops at the shorter of the two columns. */
  function Answers<P>(index: map<string, P>, qIds: seq<Cell>, spans: seq<Cell>,
                      getText: (P, int, int) -> string): Result<map<string, string>, Error>
  {
    AnswersUpTo(index, qIds, spans, if |qIds| <= |spans| then |qIds| else |spans|, getText)
  }

  /** The whole extraction, with the KeyErrors of the two column lookups. */
  function Extract<P>(questions: seq<Question<P>>, perSample: map<string, seq<Cell>>,
                      getText: (P, int, int) -> string): Result<map<string, string>, Error>
  {
    if QuestionIdField !in perSample then Err(MissingField(QuestionIdField))
    else if PredictedSpan !in perSample then Err(MissingField(PredictedSpan))
    else Answers(ParagraphIndex(questions), perSample[QuestionIdField], perSample[PredictedSpan], getText)
  }

  /** The set of question ids among the first `n` cells. */
  function ZippedIds(qIds: seq<Cell>, n: nat): set<string>
    requires n <= |qIds|
  {
    set i | 0 <= i < n && qIds[i].QuestionId? :: qIds[i].id
  }

  /** The loop completes exactly when every zipped pair can be written. */
  lemma {:induction false} AnswersOkIff<P>(index: map<string, P>, qIds: seq<Cell>, spans: seq<Cell>, n: nat,
                                           getText: (P, int, int) -> string)
    requires n <= |qIds| && n <= |spans|
    ensures AnswersUpTo(index, qIds, spans, n, getText).Ok?
            <==> forall i :: 0 <= i < n ==> StepError(index, qIds[i], spans[i]) == None
  {
    if n > 0 {
      AnswersOkIff(index, qIds, spans, n - 1, getText);
    }
  }

  /** On failure the error is that of the first pair that cannot be written. */
  lemma {:induction false} AnswersFirstError<P>(index: map<string, P>, qIds: seq<Cell>, spans: seq<Cell>, n: nat,
                                                getText: (P, int, int) -> string)
    requires n <= |qIds| && n <= |spans|
    requires AnswersUpTo(index, qIds, spans, n, getText).Err?
    ensures exists i :: 0 <= i < n && StepError(index, qIds[i], spans[i]) == Some(AnswersUpTo(index, qIds, spans, n, getText).error)
                        && forall j :: 0 <= j < i ==> StepError(index, qIds[j], spans[j]) == None
  {
    var prev := AnswersUpTo(index, qIds, spans, n - 1, getText);
    if prev.Err? {
      AnswersFirstError(index, qIds, spans, n - 1, getText);
    } else {
      AnswersOkIff(index, qIds, spans, n - 1, getText);
      assert StepError(index, qIds[n - 1], spans[n - 1]) == Some(AnswersUpTo(index, qIds, spans, n, getText).error);
    }
  }

  /** The keys written are exactly the question ids among the zipped pairs. */
  lemma {:induction false} AnswersKeys<P>(index: map<string, P>, qIds: seq<Cell>, spans: seq<Cell>, n: nat,
                                          getText: (P, int, int) -> string)
    requires n <= |qIds| && n <= |spans|
    requires AnswersUpTo(index, qIds, spans, n, getText).Ok?
    ensures AnswersUpTo(index, qIds, spans, n, getText).value.Keys == ZippedIds(qIds, n)
  {
    if n > 0 {
      AnswersKeys(index, qIds, spans, n - 1, getText);
      assert ZippedIds(qIds, n) == ZippedIds(qIds, n - 1) + {qIds[n - 1].id};
    }
  }

  /**
   * Last write wins: the text stored for a question id comes from the span
   * of the last zipped pair carrying that id, cut from its indexed paragraph.
   */
  lemma {:induction false} AnswersLastWins<P>(index: map<string, P>, qIds: seq<Cell>, spans: seq<Cell>, n: nat,
                                              getText: (P, int, int) -> string, i: nat)
    requires n <= |qIds| && n <= |spans|
    requires AnswersUpTo(index, qIds, spans, n, getText).Ok?
    requires i < n && forall j :: i < j < n ==> qIds[j] != qIds[i]
    ensures qIds[i].QuestionId? && spans[i].SpanAt? && qIds[i].id in index
    ensures var m := AnswersUpTo(index, qIds, spans, n, getText).value;
            qIds[i].id in m && m[qIds[i].id] == getText(index[qIds[i].id], spans[i].start, spans[i].end)
  {
    AnswersOkIff(index, qIds, spans, n, getText);
    assert StepError(index, qIds[i], spans[i]) == None;
    if i < n - 1 {
      AnswersLastWins(index, qIds, spans, n - 1, getText, i);
      assert qIds[n - 1].id != qIds[i].id;
    }
  }

  /** Once a pair has failed, the loop's outcome is that failure. */
  lemma {:induction false} ErrorPersists<P>(index: map<string, P>, qIds: seq<Cell>, spans: seq<Cell>, k: nat, n: nat,
                                            getText: (P, int, int) -> string)
    requires k <= n <= |qIds| && n <= |spans|
    requires AnswersUpTo(index, qIds, spans, k, getText).Err?
    ensures AnswersUpTo(index, qIds, spans, n, getText) == AnswersUpTo(index, qIds, spans, k, getText)
    decreases n - k
  {
    if k < n {
      ErrorPersists(index, qIds, spans, k + 1, n, getText);
    }
  }

  /**
   * Lines 80-90 as written: fill the paragraph dictionary, look up the two
   * columns, then walk the zipped pairs writing answers in place.
   */
  method WriteOfficialOutput<P>(questions: seq<Question<P>>, perSample: map<string, seq<Cell>>,
                                getText: (P, int, int) -> string)
    returns (r: Result<map<string, string>, Error>)
    ensures r == Extract(questions, perSample, getText)
  {
    var quidToPara: map<string, P> := map[];
    for k := 0 to |questions|
      invariant quidToPara == ParagraphIndex(questions[..k])
    {
      assert questions[..k + 1][..k] == questions[..k];
      quidToPara := quidToPara[questions[k].questionId := questions[k].paragraph];
    }
    assert questions[..|questions|] == questions;

    if QuestionIdField !in perSample {
      return Err(MissingField(QuestionIdField));
    }
    var qIds := perSample[QuestionIdField];
    if PredictedSpan !in perSample {
      return Err(MissingField(PredictedSpan));
    }
    var spans := perSample[PredictedSpan];

    var n := if |qIds| <= |spans| then |qIds| else |spans|;
    var answers: map<string, string> := map[];
    for i := 0 to n
      invariant AnswersUpTo(quidToPara, qIds, spans, i, getText) == Ok(answers)
    {
      var span := spans[i];
      if !span.SpanAt? {
        ErrorPersists(quidToPara, qIds, spans, i + 1, n, getText);
        return Err(NotAPair(span));
      }
      var qId := qIds[i];
      if !(qId.QuestionId? && qId.id in quidToPara) {
        ErrorPersists(quidToPara, qIds, spans, i + 1, n, getText);
        return Err(UnknownQuestion(qId));
      }
      var text := getText(quidToPara[qId.id], span.start, span.end);
      answers := answers[qId.id := text];
    }
    r := Ok(answers);
  }

  /**
   * End to end: when the recorder has seen a batch together with one span
   * per question, and every question of the batch is among the indexed
   * questions, the official output has exactly the batch's question ids
   * as keys: none missing and none extra.
   */
  lemma RecordedOutputCoversQuestions<P>(rec: SpanRecording.RecordSpanPrediction, data: seq<Question<P>>, trueLen: int,
                                         realized: map<string, seq<Cell>>, questions: seq<Question<P>>,
                                         getText: (P, int, int) -> string)
    requires Spans in realized && ModelScores in realized
    requires |realized[Spans]| == |data|
    requires forall i :: 0 <= i < |data| ==> realized[Spans][i].SpanAt?
    requires QuestionIds(data) <= QuestionIds(questions)
    ensures var ev := rec.Evaluate(data, trueLen, realized).value;
            Extract(questions, ev.perSample, getText).Ok?
            && Extract(questions, ev.perSample, getText).value.Keys == QuestionIds(data)
  {
    var ev := rec.Evaluate(data, trueLen, realized).value;
    var qIds, spans := ev.perSample[QuestionIdField], ev.perSample[PredictedSpan];
    var index := ParagraphIndex(questions);
    forall i | 0 <= i < |data| ensures StepError(index, qIds[i], spans[i]) == None {
      assert data[i].questionId in QuestionIds(data);
    }
    AnswersOkIff(index, qIds, spans, |data|, getText);
    AnswersKeys(index, qIds, spans, |data|, getText);
    assert ZippedIds(qIds, |data|) == QuestionIds(data) by {
      forall q | q in QuestionIds(data) ensures q in ZippedIds(qIds, |data|) {
        var i :| 0 <= i < |data| && data[i].questionId == q;
        assert qIds[i].id == q;
      }
    }
  }

}
