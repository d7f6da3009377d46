/**
  The survey screen's state as the source keeps it: three fields of the view
  that `submitAnswer` updates in place.  Its behaviour is specified by
  `Progression.Submitted`, and what holds over many submissions is proved
  there.
 */
module SurveyScreen {
  import opened Wrappers
  import opened Decimal
  import opened Questions
  import opened Progression

  class ContentView {
    var questions: seq<Question>
    var currentQuestionIndex: nat
    var userAnswer: string

    /** The fields as one value. */
    function State(): ViewState
      reads this
    {
      ViewState(questions, currentQuestionIndex, userAnswer)
    }

    /** The screen opens on the three demo questions, none answered, with the
        first one live and an empty transcript. */
    constructor ()
      ensures State() == Initial(DemoQuestions())
      ensures Progress(State())
    {
      questions := DemoQuestions();
      currentQuestionIndex := 0;
      userAnswer := "";
    }

    /** `submitAnswer(answer)`: ignores empty text; otherwise stores
        `Int(answer)` in the current question, advances the cursor by one and
        clears the text field. */
    method SubmitAnswer(answer: string)
      requires answer != "" ==> currentQuestionIndex < |questions|
      modifies this
      ensures State() == Submitted(old(State()), answer)
      ensures answer == "" ==> unchanged(this)
      ensures answer != "" ==> currentQuestionIndex == old(currentQuestionIndex) + 1 && userAnswer == ""
    {
      if answer != "" {
        questions := questions[currentQuestionIndex := questions[currentQuestionIndex].(selectedChoiceIndex := ParseInt(answer))];
        currentQuestionIndex := currentQuestionIndex + 1;
        userAnswer := "";
      }
    }

    /**
      The bubble for the live question taps Submit: the handler runs only if
      the bubble's copy of the question has a selection, and then stores that
      selection.  The bubble exists only while the cursor is in range.
     */
    method BubbleSubmitTapped(bubble: Question)
      requires currentQuestionIndex < |questions|
      modifies this
      ensures !bubble.IsAnswered() ==> unchanged(this)
      ensures bubble.IsAnswered() ==> State() == Submitted(old(State()), ShowInt(bubble.selectedChoiceIndex.value))
      ensures bubble.IsAnswered() ==>
        questions[old(currentQuestionIndex)].selectedChoiceIndex == Checked(bubble.selectedChoiceIndex.value)
    {
      var answer := BubbleSubmit(bubble);
      if answer.Some? {
        SubmitAnswer(answer.value);
      }
    }
  }
}
