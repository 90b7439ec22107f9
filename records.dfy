/** The records the scripts read from JSON Lines files, as values. */
module Records {

  /** A parsed JSON value. Numbers are integers here: the records of this
      pipeline carry ids, offsets and counts. */
  datatype Json =
    | JNull
    | JBool(b: bool)
    | JNum(n: int)
    | JStr(s: string)
    | JArr(items: seq<Json>)
    | JObj(fields: map<string, Json>)

  /** A question-answering example: `context`, `question`, `answer_text`,
      `answer_start`, and whatever other fields the line carried (`id`,
      `subject_id`, `hadm_id`, ...), which are passed through untouched. */
  datatype Example = Example(
    context: string,
    question: string,
    answerText: string,
    answerStart: int,
    extra: map<string, Json>)

  /** One line of a predictions file: `context`, `question`, `prediction`
      and `reference`. */
  datatype Prediction = Prediction(
    context: string,
    question: string,
    prediction: string,
    reference: string)
}
