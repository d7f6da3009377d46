/**
  The progression state of the survey screen as a value: the questions, the
  cursor `currentQuestionIndex` and the text field `userAnswer`.  The class
  `ContentView` holds this state in fields and is specified by the functions
  here; the lemmas here are what the screen promises over many submissions.
 */
module Progression {
  import opened Wrappers
  import opened Decimal
  import opened Questions

  datatype ViewState = ViewState(questions: seq<Question>, currentQuestionIndex: nat, userAnswer: string)

  /** The state the screen starts in: the given questions, cursor 0, empty text. */
  function Initial(qs: seq<Question>): (s: ViewState) {
    ViewState(qs, 0, "")
  }

  predicate AllUnanswered(qs: seq<Question>) {
    forall i :: 0 <= i < |qs| ==> !qs[i].IsAnswered()
  }

  /**
    The effect of `submitAnswer(answer)`.  An empty answer is ignored.
    Otherwise `Int(answer)` (nil for text that is not a number) is stored in
    the current question, the cursor moves on by one and the text field is
    cleared.  The source has no bounds check of its own: the handler is only
    reachable from the question bubble, which is only shown while the cursor
    is in range, and that is the precondition here.
   */
  function Submitted(s: ViewState, answer: string): (r: ViewState)
    requires answer != "" ==> s.currentQuestionIndex < |s.questions|
    ensures answer == "" ==> r == s
    ensures answer != "" ==>
      var c := s.currentQuestionIndex;
      && r.currentQuestionIndex == c + 1
      && r.userAnswer == ""
      && |r.questions| == |s.questions|
      && r.questions[c].questionText == s.questions[c].questionText
      && r.questions[c].choices == s.questions[c].choices
      && r.questions[c].selectedChoiceIndex == ParseInt(answer)
      && forall j :: 0 <= j < |s.questions| && j != c ==> r.questions[j] == s.questions[j]
  {
    if answer == "" then
      s
    else
      var c := s.currentQuestionIndex;
      var q := s.questions[c];
      ViewState(s.questions[c := q.(selectedChoiceIndex := ParseInt(answer))], c + 1, "")
  }

  /** One row of the transcript: a question's prompt, and its answer text
      when it has been answered. */
  datatype Entry = Entry(prompt: string, answer: Option<string>)

  function EntryOf(q: Question): (e: Entry)
    requires q.SelectionInRange()
  {
    Entry(q.questionText, if q.IsAnswered() then Some(q.AnswerResult()) else None)
  }

  /** Every question the transcript shows has an answer it can display. */
  predicate Renderable(qs: seq<Question>, cursor: nat) {
    cursor <= |qs| && forall i :: 0 <= i < cursor ==> qs[i].SelectionInRange()
  }

  /**
    The transcript above the live question: one row per index
    `0 ..< cursor`, in order, each showing the prompt and, only when the
    question is answered, the answer text.
   */
  function Transcript(qs: seq<Question>, cursor: nat): (r: seq<Entry>)
    requires Renderable(qs, cursor)
    ensures |r| == cursor
    ensures forall i :: 0 <= i < cursor ==> r[i].prompt == qs[i].questionText
    ensures forall i :: 0 <= i < cursor ==> (r[i].answer.Some? <==> qs[i].IsAnswered())
    ensures forall i :: 0 <= i < cursor && qs[i].IsAnswered() ==> r[i].answer.value == qs[i].AnswerResult()
  {
    if cursor == 0 then [] else Transcript(qs, cursor - 1) + [EntryOf(qs[cursor - 1])]
  }

  /** The question offered for answering: the one under the cursor, and none
      once the cursor has reached the end. */
  function LiveQuestion(s: ViewState): (r: Option<Question>)
    ensures r.Some? <==> s.currentQuestionIndex < |s.questions|
    ensures r.Some? ==> r.value == s.questions[s.currentQuestionIndex]
  {
    if s.currentQuestionIndex < |s.questions| then Some(s.questions[s.currentQuestionIndex]) else None
  }

  /**
    The submit button of the question bubble: it fires the handler only when
    the bubble's question has a selection, and then with the selection's
    decimal text, which is never empty and reads back as the selection.
   */
  function BubbleSubmit(bubble: Question): (r: Option<string>)
    ensures r.Some? <==> bubble.IsAnswered()
    ensures r.Some? ==> r.value != ""
    ensures r.Some? ==> ParseInt(r.value) == Checked(bubble.selectedChoiceIndex.value)
  {
    match bubble.selectedChoiceIndex
    case None => None
    case Some(i) => ParseShowInt(i); Some(ShowInt(i))
  }

  /** A choice the picker of question `q` can produce. */
  predicate ValidPick(q: Question, k: int) {
    0 <= k < |q.choices| && InIntRange(k)
  }

  /**
    The only path by which answers reach `submitAnswer`: the bubble for the
    live question, whose picker recorded choice `k`, taps Submit and the
    handler is called with what the button sends.
   */
  function GuardedStep(s: ViewState, k: int): (r: ViewState)
    requires s.currentQuestionIndex < |s.questions|
    requires ValidPick(s.questions[s.currentQuestionIndex], k)
    ensures r.currentQuestionIndex == s.currentQuestionIndex + 1
    ensures |r.questions| == |s.questions|
    ensures r.questions[s.currentQuestionIndex] == s.questions[s.currentQuestionIndex].Picked(k)
    ensures forall j :: 0 <= j < |s.questions| && j != s.currentQuestionIndex ==> r.questions[j] == s.questions[j]
  {
    var bubble := s.questions[s.currentQuestionIndex].Picked(k);
    match BubbleSubmit(bubble)
    case Some(answer) => Submitted(s, answer)
    case None => s
  }

  /** `picks` are choices the pickers can produce for the questions from the
      cursor onwards, one per question. */
  predicate ValidPicks(s: ViewState, picks: seq<int>) {
    && s.currentQuestionIndex + |picks| <= |s.questions|
    && forall j :: 0 <= j < |picks| ==> ValidPick(s.questions[s.currentQuestionIndex + j], picks[j])
  }

  /** After the first pick is submitted, the remaining picks fit the
      questions from the new cursor on. */
  lemma RemainingPicksValid(s: ViewState, picks: seq<int>)
    requires ValidPicks(s, picks) && picks != []
    ensures ValidPicks(GuardedStep(s, picks[0]), picks[1..])
  {
    var next := GuardedStep(s, picks[0]);
    forall j | 0 <= j < |picks[1..]|
      ensures ValidPick(next.questions[next.currentQuestionIndex + j], picks[1..][j])
    {
      assert next.questions[next.currentQuestionIndex + j] == s.questions[s.currentQuestionIndex + (j + 1)];
    }
  }

  /** The state after the user answers the next questions with `picks`, one
      guarded submission each. */
  function Replay(s: ViewState, picks: seq<int>): (r: ViewState)
    requires ValidPicks(s, picks)
    ensures r.currentQuestionIndex == s.currentQuestionIndex + |picks|
    ensures |r.questions| == |s.questions|
    ensures forall j :: 0 <= j < |picks| ==>
      r.questions[s.currentQuestionIndex + j] == s.questions[s.currentQuestionIndex + j].Picked(picks[j])
    ensures forall i :: 0 <= i < |s.questions| && !(s.currentQuestionIndex <= i < s.currentQuestionIndex + |picks|) ==>
      r.questions[i] == s.questions[i]
    decreases |picks|
  {
    if picks == [] then
      s
    else
      var next := GuardedStep(s, picks[0]);
      RemainingPicksValid(s, picks);
      var r := Replay(next, picks[1..]);
      assert forall j :: 1 <= j < |picks| ==> picks[j] == picks[1..][j - 1];
      r
  }

  /**
    The survey's invariant: the cursor is within bounds, every question
    before it has an answer that indexes its choices, and every question from
    it onwards is unanswered.
   */
  predicate Progress(s: ViewState) {
    && s.currentQuestionIndex <= |s.questions|
    && (forall i :: 0 <= i < s.currentQuestionIndex ==> s.questions[i].IsAnswered() && s.questions[i].SelectionInRange())
    && (forall i :: s.currentQuestionIndex <= i < |s.questions| ==> !s.questions[i].IsAnswered())
  }

  lemma InitialProgress(qs: seq<Question>)
    requires AllUnanswered(qs)
    ensures Progress(Initial(qs))
    ensures LiveQuestion(Initial(qs)) == if qs == [] then None else Some(qs[0])
    ensures Transcript(qs, 0) == []
  {
  }

  /** A guarded submission keeps the invariant. */
  lemma GuardedStepKeepsProgress(s: ViewState, k: int)
    requires Progress(s)
    requires s.currentQuestionIndex < |s.questions|
    requires ValidPick(s.questions[s.currentQuestionIndex], k)
    ensures Progress(GuardedStep(s, k))
  {
  }

  lemma {:induction false} ReplayKeepsProgress(s: ViewState, picks: seq<int>)
    requires Progress(s)
    requires ValidPicks(s, picks)
    ensures Progress(Replay(s, picks))
    decreases |picks|
  {
    if picks != [] {
      GuardedStepKeepsProgress(s, picks[0]);
      var next := GuardedStep(s, picks[0]);
      RemainingPicksValid(s, picks);
      ReplayKeepsProgress(next, picks[1..]);
    }
  }

  /**
    From the start, answering the first questions through the bubble leaves
    exactly those questions answered, each with the choice picked for it and
    its prompt and choices untouched, and the rest unanswered; the survey
    offers no question once every one has been answered.
   */
  lemma SurveyFromStart(qs: seq<Question>, picks: seq<int>)
    requires AllUnanswered(qs)
    requires ValidPicks(Initial(qs), picks)
    ensures Progress(Replay(Initial(qs), picks))
    ensures Replay(Initial(qs), picks).currentQuestionIndex == |picks|
    ensures forall i :: 0 <= i < |picks| ==> Replay(Initial(qs), picks).questions[i] == qs[i].Picked(picks[i])
    ensures forall i :: |picks| <= i < |qs| ==> Replay(Initial(qs), picks).questions[i] == qs[i]
    ensures LiveQuestion(Replay(Initial(qs), picks)).None? <==> |picks| == |qs|
  {
    var s := Initial(qs);
    InitialProgress(qs);
    ReplayKeepsProgress(s, picks);
    var r := Replay(s, picks);
    assert r.currentQuestionIndex == |picks|;
    forall i | 0 <= i < |picks|
      ensures r.questions[i] == qs[i].Picked(picks[i])
    {
      assert s.currentQuestionIndex + i == i;
      assert r.questions[s.currentQuestionIndex + i] == s.questions[s.currentQuestionIndex + i].Picked(picks[i]);
    }
  }

  /** ... and the transcript lists those questions in order, each with the
      text of the choice picked for it. */
  lemma TranscriptFromStart(qs: seq<Question>, picks: seq<int>)
    requires AllUnanswered(qs)
    requires ValidPicks(Initial(qs), picks)
    ensures Renderable(Replay(Initial(qs), picks).questions, |picks|)
    ensures forall i :: 0 <= i < |picks| ==>
      Transcript(Replay(Initial(qs), picks).questions, |picks|)[i] == Entry(qs[i].questionText, Some(qs[i].choices[picks[i]]))
  {
    SurveyFromStart(qs, picks);
    var r := Replay(Initial(qs), picks);
    forall i | 0 <= i < |picks|
      ensures Transcript(r.questions, |picks|)[i] == Entry(qs[i].questionText, Some(qs[i].choices[picks[i]]))
    {
      AnswerResultOfPicked(qs[i], picks[i]);
    }
  }

  /** Only the prefix below the cursor matters to the transcript. */
  lemma TranscriptDependsOnPrefix(qs: seq<Question>, qs': seq<Question>, cursor: nat)
    requires Renderable(qs, cursor) && Renderable(qs', cursor)
    requires qs[..cursor] == qs'[..cursor]
    ensures Transcript(qs, cursor) == Transcript(qs', cursor)
  {
  }

  /**
    A submission that stores a displayable answer grows the transcript by
    exactly one row, for the question just answered, and leaves the earlier
    rows as they were.
   */
  lemma TranscriptAfterSubmit(s: ViewState, answer: string)
    requires Renderable(s.questions, s.currentQuestionIndex)
    requires answer != "" && s.currentQuestionIndex < |s.questions|
    requires s.questions[s.currentQuestionIndex].(selectedChoiceIndex := ParseInt(answer)).SelectionInRange()
    ensures var r := Submitted(s, answer);
      && Renderable(r.questions, r.currentQuestionIndex)
      && Transcript(r.questions, r.currentQuestionIndex)
         == Transcript(s.questions, s.currentQuestionIndex) + [EntryOf(r.questions[s.currentQuestionIndex])]
  {
  }

  /**
    The handler itself does not keep the invariant: text that is not a
    number still moves the cursor on, leaving an unanswered question behind
    it.
   */
  lemma NonNumericAnswerAdvances(s: ViewState, answer: string)
    requires s.currentQuestionIndex < |s.questions|
    requires answer != "" && ParseInt(answer) == None
    ensures var r := Submitted(s, answer);
      && r.currentQuestionIndex == s.currentQuestionIndex + 1
      && !r.questions[s.currentQuestionIndex].IsAnswered()
      && !Progress(r)
  {
  }

  /**
    Nor does it check the range: a number past the last choice is stored, the
    cursor moves on, and the transcript can no longer show that answer.
   */
  lemma OutOfRangeAnswerStored(s: ViewState, answer: string)
    requires s.currentQuestionIndex < |s.questions|
    requires answer != "" && ParseInt(answer).Some?
    requires ParseInt(answer).value >= |s.questions[s.currentQuestionIndex].choices|
    ensures var r := Submitted(s, answer);
      && r.currentQuestionIndex == s.currentQuestionIndex + 1
      && r.questions[s.currentQuestionIndex].selectedChoiceIndex == ParseInt(answer)
      && !Renderable(r.questions, r.currentQuestionIndex)
  {
  }

  /**
    The demo run: answering each of the three questions with its second
    choice answers them all, offers no further question, and shows the
    second choices in the transcript.
   */
  lemma DemoRun()
    ensures var r := Replay(Initial(DemoQuestions()), [1, 1, 1]);
      && r.currentQuestionIndex == 3
      && LiveQuestion(r).None?
      && Transcript(r.questions, 3) == [
           Entry("Question 1", Some("Choice 1-2")),
           Entry("Question 2", Some("Choice 2-2")),
           Entry("Question 3", Some("Choice 3-2"))]
  {
  }
}
