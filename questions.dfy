/**
  One survey item: a prompt, its ordered choices and the index of the
  chosen one, if any.  The source also gives each question a fresh UUID; the
  model has no use for it and leaves it out.
 */
module Questions {
  import opened Wrappers

  datatype Question = Question(questionText: string, choices: seq<string>, selectedChoiceIndex: Option<int>)
  {
    predicate IsAnswered() {
      selectedChoiceIndex.Some?
    }

    /** The stored index, if any, can be used to index `choices`. */
    predicate SelectionInRange() {
      selectedChoiceIndex.Some? ==> 0 <= selectedChoiceIndex.value < |choices|
    }

    /** The text shown as the user's answer; the source indexes `choices`
        without a check, so a stored index must be in range. */
    function AnswerResult(): (r: string)
      requires SelectionInRange()
      ensures !IsAnswered() ==> r == ""
      ensures IsAnswered() ==> r in choices
    {
      match selectedChoiceIndex
      case None => ""
      case Some(i) => choices[i]
    }

    /** The same question with choice `k` recorded as its answer. */
    function Picked(k: int): (q: Question)
      ensures q.questionText == questionText && q.choices == choices
      ensures q.selectedChoiceIndex == Some(k)
    {
      this.(selectedChoiceIndex := Some(k))
    }
  }

  /** Recording choice `k` makes the answer text exactly the `k`-th choice. */
  lemma AnswerResultOfPicked(q: Question, k: int)
    requires 0 <= k < |q.choices|
    ensures q.Picked(k).SelectionInRange()
    ensures q.Picked(k).AnswerResult() == q.choices[k]
  {
  }

  /** When no choice is the empty string, the answer text is empty exactly
      when the question is unanswered. */
  lemma AnswerResultEmptyIffUnanswered(q: Question)
    requires q.SelectionInRange()
    requires forall c :: c in q.choices ==> c != ""
    ensures q.AnswerResult() == "" <==> !q.IsAnswered()
  {
  }

  /** The three questions the screen starts with, none of them answered. */
  function DemoQuestions(): (qs: seq<Question>)
    ensures |qs| == 3
    ensures forall i :: 0 <= i < |qs| ==> !qs[i].IsAnswered() && |qs[i].choices| == 4
  {
    [
      Question("Question 1", ["Choice 1-1", "Choice 1-2", "Choice 1-3", "Choice 1-4"], None),
      Question("Question 2", ["Choice 2-1", "Choice 2-2", "Choice 2-3", "Choice 2-4"], None),
      Question("Question 3", ["Choice 3-1", "Choice 3-2", "Choice 3-3", "Choice 3-4"], None)
    ]
  }
}
