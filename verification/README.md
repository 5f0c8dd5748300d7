# SQuAD evaluation script: recorded predictions and the official output

This project models the result-shaping part of `eval/squad_eval.py`, the
script that evaluates a trained reading-comprehension model on SQuAD and
can write the official prediction file (question id to answer text). Five
pieces are modelled:

- `RecordSpanPrediction` (module `SpanRecording`) is the evaluator that
  records raw predictions. It asks every prediction for its best span under
  one length bound, plus that span's score. For a batch it returns an
  `Evaluation` with no scalars and three aligned per-sample columns:
  confidence, predicted span and question id. Lazy tensors are free terms
  (`Tensor.BestSpan`, `Tensor.BestSpanScore`), so two requests are equal
  exactly when they name the same prediction and bound.
- The official output (module `OfficialOutput`) is built in two steps.
  First, the questions are indexed into a question id to paragraph
  dictionary. Then the recorded question ids are zipped with the recorded
  spans and each span's original text is written under its question id, in
  place. `WriteOfficialOutput` is the imperative loop. It is proved equal
  to the specification function `Extract`, and the lemmas about `Extract`
  state key sets, last-write-wins and the KeyError cases.
- The printed table of scalar metrics (module `MetricsTable`) is a header
  row, then one `[name, value]` row per metric, sorted by name with
  Python's string order (module `StringOrder`).
- The `--sample_questions` cap (module `QuestionSampling`), with the
  finding below.
- The evaluator list (module `EvaluatorList`): the span scorer always, and
  a recorder at the first answer bound when an output path is given.

Functions supplied from outside the modelled code are parameters:
`Paragraph.get_original_text` is `getText`, rendering a metric value with
`"%s"` is `show`, and the seeded generator's permutation is `shuffle`.
Paragraphs are a type parameter.

Line 58 sorts the questions by id and shuffles them with a fixed seed,
which only makes sense if the shuffled list were then cut. The code cuts
the original list instead, and this model follows the code (see Findings).

## Model

| member | source | states |
|---|---|---|
| `SpanRecording.RecordSpanPrediction.TensorsNeeded` | eval/squad_eval.py:25-27 | exactly the keys `spans` and `model_scores`, holding the best span and its score under the recorder's own bound |
| `SpanRecording.RecordSpanPrediction.Evaluate` | eval/squad_eval.py:29-34 | scalars are always empty; KeyError on a missing `spans` (checked first) or `model_scores`, otherwise success; exactly the three fields; `model_conf` and `predicted_span` pass the realized values through unchanged; `question_id` has one entry per question, in batch order |
| `SpanRecording.SameRequestsIffSameBound` | eval/squad_eval.py:25-27 | two recorders issue identical requests if and only if their bounds are equal, so a deduplicating runner computes them once |
| `SpanRecording.RequestedTensorsSuffice` | eval/squad_eval.py:25-30 | realized values for exactly the requested tensors are enough for evaluation to succeed |
| `SpanRecording.EvaluateConcatenatesBatches` | eval/squad_eval.py:29-34 | evaluating two batches as one gives, field by field, the concatenation of their per-sample columns (positional alignment survives batching) |
| `OfficialOutput.ParagraphIndex` | eval/squad_eval.py:81-83 | the dictionary's keys are exactly the questions' ids |
| `OfficialOutput.ParagraphIndexLastWins` | eval/squad_eval.py:81-83 | each id maps to the paragraph of its last occurrence |
| `OfficialOutput.StepError` | eval/squad_eval.py:88-89 | a zipped pair can be written if and only if its span unpacks and its id is in the paragraph dictionary |
| `OfficialOutput.AnswersOkIff` | eval/squad_eval.py:88-90 | the loop completes if and only if every zipped pair can be written |
| `OfficialOutput.AnswersFirstError` | eval/squad_eval.py:88-90 | a failed loop reports the error of the first pair that cannot be written |
| `OfficialOutput.AnswersKeys` | eval/squad_eval.py:86-90 | the keys written are exactly the question ids among the zipped pairs, `zip` stopping at the shorter column |
| `OfficialOutput.AnswersLastWins` | eval/squad_eval.py:88-90 | the text under an id is `getText` of its paragraph at the span of the last zipped pair with that id |
| `OfficialOutput.ErrorPersists` | eval/squad_eval.py:88-90 | once a pair fails, the outcome of the whole loop is that failure |
| `OfficialOutput.WriteOfficialOutput` | eval/squad_eval.py:80-90 | the in-place loops compute `Extract`: KeyError for a missing `question_id` column, then for a missing `predicted_span` column, then the zipped answers |
| `OfficialOutput.RecordedOutputCoversQuestions` | eval/squad_eval.py:80-90 | when the recorder saw one span per question and every recorded question is indexed, the official output's keys are exactly the recorded question ids |
| `MetricsTable.TransposeLists` | eval/squad_eval.py:77 | row i of the transpose is column i of the input |
| `MetricsTable.TransposeTwice` | eval/squad_eval.py:77 | transposing a non-empty rectangular table twice gives it back |
| `QuestionSampling.PermuteKeepsDistinctIds` | eval/squad_eval.py:58 | shuffling the id-sorted list of questions with distinct ids never repeats an id |
| `MetricsTable.SortedKeys` | eval/squad_eval.py:73 | the metric names in strictly ascending order, each exactly once |
| `MetricsTable.ScalarTable` | eval/squad_eval.py:72-77 | a header row, then one two-cell row per metric holding that metric's own value; the name column is strictly ascending and holds exactly the metric names; the `"-"` placeholder is never produced |
| `QuestionSampling.SlicePrefix` | eval/squad_eval.py:59 | Python's `s[:k]`: a prefix of length `min(k, len)`, or `max(0, len + k)` for negative `k` |
| `QuestionSampling.SortById` | eval/squad_eval.py:58 | the sort keeps the length and the multiset of questions |
| `QuestionSampling.SortByIdSorted` | eval/squad_eval.py:58 | the sorted copy is ordered by id, strictly when ids are distinct |
| `QuestionSampling.SortedUnique` | eval/squad_eval.py:58 | with distinct ids, two id-sorted lists holding the same questions are equal |
| `QuestionSampling.SortIgnoresInputOrder` | eval/squad_eval.py:58 | with distinct ids, any reordering of the same questions sorts to the same list |
| `QuestionSampling.SampleQuestions` | eval/squad_eval.py:57-59 | the sample is a prefix of the original list: unchanged when the cap is absent or 0, the first `min(n, len)` questions for positive `n` |
| `QuestionSampling.SampleIgnoresShuffle` | eval/squad_eval.py:58 | the seeded shuffle has no effect on the sample |
| `QuestionSampling.SampleDependsOnInputOrder` | eval/squad_eval.py:57-59 | two orderings of the same two questions give different one-question samples |
| `QuestionSampling.SampleQuestionsShuffled` | eval/squad_eval.py:57-59 | intended sampling: unchanged without a cap; otherwise `min(n, len)` questions for positive `n` and `max(0, len + n)` for negative `n`, all drawn from the input, and no question id repeated when the input's ids are distinct |
| `QuestionSampling.ShuffledSampleIgnoresInputOrder` | eval/squad_eval.py:57-59 | for a non-zero cap, intended sampling does not depend on the order of the input when ids are distinct |
| `EvaluatorList.Evaluators` | eval/squad_eval.py:63-65 | the span scorer first, over all bounds with the "squad" text evaluation; the list is that scorer alone without an output path, and exactly two evaluators with one; a recorder is present if and only if an output path is given, it comes last, and it uses the first bound |
| `EvaluatorList.RecorderRequestsLeadingBound` | eval/squad_eval.py:63-65 | with an output path, the recorder requests the best span and its score under the leading answer bound |

## Findings

| source | as written | input that shows it | evidently intended | confidence | as-written member | corrected member |
|---|---|---|---|---|---|---|
| eval/squad_eval.py:58 | shuffles a freshly sorted copy and drops it, so the cap keeps the first `n` questions in corpus order | questions `a`, `b` listed as `[a, b]` and as `[b, a]`, cap 1: samples `[a]` and `[b]` | sort by question id, shuffle that list with the fixed seed, then cut it, giving a sample that does not depend on corpus order | high; not executed | `QuestionSampling.SampleDependsOnInputOrder` | `QuestionSampling.ShuffledSampleIgnoresInputOrder` |

## Left out

- Argument parsing, opening and writing the JSON file, and `print_table`: these are I/O only.
- `trainer.test`: inference, tensor deduplication across evaluators, and merging per-batch evaluations. It is not part of this model. `ConcatColumns` only states how the recorded columns of consecutive batches line up.
- `ModelDir`, checkpoint resolution, `SquadCorpus`, `split_docs`, `ParagraphAndQuestionDataset` and `FixedOrderBatcher`: corpus loading and batching from modules that are not part of this model. Their results are inputs here.
- `SpanEvaluator`: its metrics are defined elsewhere. Only the arguments it is built with are kept.
- `np.random.RandomState(0).shuffle`: the generator is not modelled. Its permutation for a list of each length is the parameter `shuffle`.
- `Paragraph.get_original_text` and `"%s"` formatting of floats: these are the parameters `getText` and `show`.
- `OfficialOutput.WriteOfficialOutput`: `getText` is a total function, so the model does not capture a `get_original_text` that raises part-way through the loop at eval/squad_eval.py:89.
- `OfficialOutput.WriteOfficialOutput`: the answers are a map, which drops the insertion order in which `json.dump` writes the keys; the file's consumer reads it as a dictionary, so nothing depends on that order.
- `OfficialOutput.StepError`: any cell that is not a span counts as a failed `(start, end)` unpacking. In Python, a two-character string would unpack.
- `OfficialOutput.StepError`: any id cell that is not a string, or is not indexed, counts as a KeyError. In Python, an unhashable key raises TypeError instead.
- `SpanRecording.RecordSpanPrediction.Evaluate`: realized numpy arrays are sequences of cells. `true_len` is accepted and unused, as in the source.
- `QuestionSampling.SortById`: the stability of Python's `sorted` (questions with equal ids keep their input order) is not stated; it matters only for the intended sample when ids repeat, and every order-independence lemma assumes distinct ids.
- scripts/show_parameters.py: checkpoint reading and printing.
- config.py: path constants with no behaviour.
