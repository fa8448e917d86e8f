/**
 * The quiz page's state machine: the quiz chosen, the question shown, the
 * answers given so far and whether the quiz is finished, updated by the
 * page's handlers; finishing a quiz saves an attempt to the attempt log.
 */
module QuizPage {
  import opened JsCore
  import opened QuizUtils

  // ---------------------------------------------------------------------------
  // Answers
  // ---------------------------------------------------------------------------

  /** findIndex over the answers: the first one for `questionId`. */
  function FindAnswerIndex(answers: seq<UserAnswer>, questionId: string): (r: Option<nat>)
    ensures r.None? <==> forall i :: 0 <= i < |answers| ==> answers[i].questionId != questionId
    ensures r.Some? ==> r.value < |answers| && answers[r.value].questionId == questionId
    ensures r.Some? ==> forall i :: 0 <= i < r.value ==> answers[i].questionId != questionId
  {
    if |answers| == 0 then None
    else if answers[0].questionId == questionId then Some(0)
    else match FindAnswerIndex(answers[1..], questionId)
      case None => None
      case Some(k) => Some(k + 1)
  }

  /** find(...)?.answer: the answer given to `questionId`, if any. */
  function FindAnswer(answers: seq<UserAnswer>, questionId: string): Option<string>
  {
    match FindAnswerIndex(answers, questionId)
    case None => None
    case Some(k) => Some(answers[k].answer)
  }

  /** The update handleAnswer applies: overwrite the first answer to the question, or append one. */
  function UpsertAnswer(answers: seq<UserAnswer>, questionId: string, answer: string): (r: seq<UserAnswer>)
    ensures FindAnswerIndex(answers, questionId).Some? ==>
              |r| == |answers| &&
              forall i :: 0 <= i < |r| ==>
                r[i] == (if i == FindAnswerIndex(answers, questionId).value
                         then UserAnswer(questionId, answer) else answers[i])
    ensures FindAnswerIndex(answers, questionId).None? ==> r == answers + [UserAnswer(questionId, answer)]
  {
    match FindAnswerIndex(answers, questionId)
    case Some(k) => answers[k := answers[k].(answer := answer)]
    case None => answers + [UserAnswer(questionId, answer)]
  }

  /** The answers carry pairwise distinct question ids. */
  predicate DistinctQuestions(answers: seq<UserAnswer>)
  {
    forall i, j :: 0 <= i < j < |answers| ==> answers[i].questionId != answers[j].questionId
  }

  /** After an answer is recorded, looking the question up gives that answer. */
  lemma UpsertThenFind(answers: seq<UserAnswer>, questionId: string, answer: string)
    ensures FindAnswer(UpsertAnswer(answers, questionId, answer), questionId) == Some(answer)
  {
    var r := UpsertAnswer(answers, questionId, answer);
    match FindAnswerIndex(answers, questionId)
    case Some(k) =>
      assert r[k].questionId == questionId;
      assert forall i :: 0 <= i < k ==> r[i] == answers[i];
      assert FindAnswerIndex(r, questionId) == Some(k);
    case None =>
      assert forall i :: 0 <= i < |answers| ==> r[i] == answers[i];
      assert r[|answers|].questionId == questionId;
  }

  /** Recording an answer leaves the answers to every other question as they were. */
  lemma UpsertKeepsOthers(answers: seq<UserAnswer>, questionId: string, answer: string, other: string)
    requires other != questionId
    ensures FindAnswer(UpsertAnswer(answers, questionId, answer), other) == FindAnswer(answers, other)
  {
    var r := UpsertAnswer(answers, questionId, answer);
    assert forall i :: 0 <= i < |answers| ==> r[i].questionId == answers[i].questionId;
    assert forall i :: 0 <= i < |answers| && answers[i].questionId == other ==> r[i] == answers[i];
    match FindAnswerIndex(answers, other)
    case Some(k) =>
      assert FindAnswerIndex(r, other) == Some(k);
    case None =>
      assert FindAnswerIndex(r, other).None?;
  }

  /** Distinct question ids stay distinct. */
  lemma UpsertKeepsDistinct(answers: seq<UserAnswer>, questionId: string, answer: string)
    requires DistinctQuestions(answers)
    ensures DistinctQuestions(UpsertAnswer(answers, questionId, answer))
  {
    var r := UpsertAnswer(answers, questionId, answer);
    assert forall i :: 0 <= i < |answers| ==> r[i].questionId == answers[i].questionId;
  }

  /** Answering the same question twice keeps only the second answer. */
  lemma UpsertOverwrites(answers: seq<UserAnswer>, questionId: string, x: string, y: string)
    ensures UpsertAnswer(UpsertAnswer(answers, questionId, x), questionId, y) == UpsertAnswer(answers, questionId, y)
  {
    var once := UpsertAnswer(answers, questionId, x);
    match FindAnswerIndex(answers, questionId)
    case Some(k) =>
      assert forall i :: 0 <= i < |once| ==> once[i].questionId == answers[i].questionId;
      assert FindAnswerIndex(once, questionId) == Some(k);
    case None =>
      assert forall i :: 0 <= i < |answers| ==> once[i] == answers[i];
      assert once[|answers|].questionId == questionId;
      assert FindAnswerIndex(once, questionId) == Some(|answers|);
  }

  // ---------------------------------------------------------------------------
  // The page
  // ---------------------------------------------------------------------------

  class QuizPage {
    const store: QuizStore
    /** The quizzes getAllQuizzes and getQuizById read (the shipped catalogue). */
    const catalogue: seq<QuizConfig>
    var quizzes: seq<QuizConfig>
    var selectedQuiz: Option<QuizConfig>
    var currentQuestionIndex: int
    var userAnswers: seq<UserAnswer>
    var quizCompleted: bool
    var loading: bool

    /** The question index never goes negative. */
    predicate Valid()
      reads this
    {
      currentQuestionIndex >= 0
    }

    /** A quiz is selected and the index names one of its questions. */
    predicate HasCurrentQuestion()
      reads this
    {
      selectedQuiz.Some? && 0 <= currentQuestionIndex < |selectedQuiz.value.questions|
    }

    /** The page's initial state, over the attempt log kept in storage. */
    constructor (store: QuizStore, catalogue: seq<QuizConfig>)
      ensures Valid()
      ensures this.store == store && this.catalogue == catalogue && quizzes == [] && selectedQuiz.None?
      ensures currentQuestionIndex == 0 && userAnswers == [] && !quizCompleted && loading
    {
      this.store := store;
      this.catalogue := catalogue;
      quizzes := [];
      selectedQuiz := None;
      currentQuestionIndex := 0;
      userAnswers := [];
      quizCompleted := false;
      loading := true;
    }

    /**
     * The effect run for the route's quiz id: the catalogue is loaded and, for
     * a known id, that quiz is selected and its latest saved answers, when
     * there are any, replace the current ones.
     */
    method LoadRoute(quizId: Option<string>)
      requires Valid()
      modifies this
      ensures Valid()
      ensures quizzes == catalogue && !loading
      ensures currentQuestionIndex == old(currentQuestionIndex) && quizCompleted == old(quizCompleted)
      ensures quizId.None? || quizId.value == "" || FindQuiz(catalogue, quizId.value).None? ==>
                selectedQuiz == old(selectedQuiz) && userAnswers == old(userAnswers)
      ensures quizId.Some? && quizId.value != "" && FindQuiz(catalogue, quizId.value).Some? ==>
                selectedQuiz == FindQuiz(catalogue, quizId.value) &&
                userAnswers == (if |store.GetUserAnswersForQuiz(quizId.value)| > 0
                                then store.GetUserAnswersForQuiz(quizId.value) else old(userAnswers))
    {
      quizzes := catalogue;
      if quizId.Some? && quizId.value != "" {
        var quiz := FindQuiz(catalogue, quizId.value);
        if quiz.Some? {
          selectedQuiz := quiz;
          var saved := store.GetUserAnswersForQuiz(quizId.value);
          if |saved| > 0 {
            userAnswers := saved;
          }
        }
      }
      loading := false;
    }

    /** handleQuizSelect: a fresh start on the chosen quiz. */
    method SelectQuiz(quiz: QuizConfig)
      requires Valid()
      modifies this
      ensures Valid()
      ensures selectedQuiz == Some(quiz) && currentQuestionIndex == 0 && userAnswers == [] && !quizCompleted
      ensures quizzes == old(quizzes) && loading == old(loading)
      ensures |quiz.questions| > 0 ==> HasCurrentQuestion()
    {
      selectedQuiz := Some(quiz);
      currentQuestionIndex := 0;
      userAnswers := [];
      quizCompleted := false;
    }

    /** handleAnswer: the answer to the current question is recorded, overwriting an earlier one. */
    method HandleAnswer(answer: string)
      requires Valid()
      requires selectedQuiz.Some? ==> HasCurrentQuestion()
      modifies this
      ensures Valid()
      ensures selectedQuiz == old(selectedQuiz) && currentQuestionIndex == old(currentQuestionIndex)
      ensures quizCompleted == old(quizCompleted) && quizzes == old(quizzes) && loading == old(loading)
      ensures selectedQuiz.None? ==> userAnswers == old(userAnswers)
      ensures selectedQuiz.Some? ==>
                userAnswers == UpsertAnswer(old(userAnswers), CurrentQuestionId(), answer)
      ensures selectedQuiz.Some? ==> CurrentUserAnswer() == Some(answer)
      ensures old(DistinctQuestions(userAnswers)) ==> DistinctQuestions(userAnswers)
    {
      if selectedQuiz.None? {
        return;
      }
      var question := selectedQuiz.value.questions[currentQuestionIndex];
      UpsertThenFind(userAnswers, question.id, answer);
      if DistinctQuestions(userAnswers) {
        UpsertKeepsDistinct(userAnswers, question.id, answer);
      }
      userAnswers := UpsertAnswer(userAnswers, question.id, answer);
    }

    /** The id of the question shown. */
    function CurrentQuestionId(): string
      requires HasCurrentQuestion()
      reads this
    {
      selectedQuiz.value.questions[currentQuestionIndex].id
    }

    /** getCurrentUserAnswer: the answer recorded for the question shown, None for undefined. */
    function CurrentUserAnswer(): (r: Option<string>)
      requires selectedQuiz.Some? ==> HasCurrentQuestion()
      reads this
      ensures selectedQuiz.None? ==> r.None?
      ensures selectedQuiz.Some? ==>
                (r.None? <==> forall i :: 0 <= i < |userAnswers| ==> userAnswers[i].questionId != CurrentQuestionId())
    {
      if selectedQuiz.None? then None else FindAnswer(userAnswers, CurrentQuestionId())
    }

    /**
     * handleNextQuestion: on to the next question, or, at the last one,
     * completeQuiz: the answers are saved as an attempt stamped `now` and the
     * quiz is marked complete.
     */
    method NextQuestion(now: int)
      requires Valid()
      modifies this, store
      ensures Valid()
      ensures selectedQuiz == old(selectedQuiz) && userAnswers == old(userAnswers)
      ensures quizzes == old(quizzes) && loading == old(loading)
      ensures selectedQuiz.None? ==>
                currentQuestionIndex == old(currentQuestionIndex) && quizCompleted == old(quizCompleted) &&
                store.attempts == old(store.attempts)
      ensures selectedQuiz.Some? && old(currentQuestionIndex) < |selectedQuiz.value.questions| - 1 ==>
                currentQuestionIndex == old(currentQuestionIndex) + 1 && quizCompleted == old(quizCompleted) &&
                store.attempts == old(store.attempts)
      ensures selectedQuiz.Some? && old(currentQuestionIndex) >= |selectedQuiz.value.questions| - 1 ==>
                currentQuestionIndex == old(currentQuestionIndex) && quizCompleted &&
                store.attempts == old(store.attempts) + [QuizAttempt(selectedQuiz.value.id, now, userAnswers)]
      ensures old(HasCurrentQuestion()) ==> HasCurrentQuestion()
    {
      if selectedQuiz.None? {
        return;
      }
      if currentQuestionIndex < |selectedQuiz.value.questions| - 1 {
        currentQuestionIndex := currentQuestionIndex + 1;
      } else {
        CompleteQuiz(now);
      }
    }

    /** completeQuiz: saves the answers as an attempt stamped `now` and marks the quiz complete. */
    method CompleteQuiz(now: int)
      requires Valid()
      modifies this, store
      ensures Valid()
      ensures selectedQuiz == old(selectedQuiz) && userAnswers == old(userAnswers)
      ensures currentQuestionIndex == old(currentQuestionIndex)
      ensures quizzes == old(quizzes) && loading == old(loading)
      ensures selectedQuiz.None? ==> quizCompleted == old(quizCompleted) && store.attempts == old(store.attempts)
      ensures selectedQuiz.Some? ==>
                quizCompleted && store.attempts == old(store.attempts) + [QuizAttempt(selectedQuiz.value.id, now, userAnswers)]
    {
      if selectedQuiz.None? {
        return;
      }
      store.SaveQuizAttempt(QuizAttempt(selectedQuiz.value.id, now, userAnswers));
      quizCompleted := true;
    }

    /** handlePrevQuestion: back one question, never below the first. */
    method PrevQuestion()
      requires Valid()
      modifies this
      ensures Valid()
      ensures currentQuestionIndex == if old(currentQuestionIndex) > 0 then old(currentQuestionIndex) - 1 else old(currentQuestionIndex)
      ensures selectedQuiz == old(selectedQuiz) && userAnswers == old(userAnswers) && quizCompleted == old(quizCompleted)
      ensures quizzes == old(quizzes) && loading == old(loading)
      ensures old(HasCurrentQuestion()) ==> HasCurrentQuestion()
    {
      if currentQuestionIndex > 0 {
        currentQuestionIndex := currentQuestionIndex - 1;
      }
    }

    /** handleRestart: back to the first question with no answers. */
    method Restart()
      requires Valid()
      modifies this
      ensures Valid()
      ensures selectedQuiz == old(selectedQuiz) && quizzes == old(quizzes) && loading == old(loading)
      ensures selectedQuiz.None? ==>
                currentQuestionIndex == old(currentQuestionIndex) && userAnswers == old(userAnswers) &&
                quizCompleted == old(quizCompleted)
      ensures selectedQuiz.Some? ==> currentQuestionIndex == 0 && userAnswers == [] && !quizCompleted
    {
      if selectedQuiz.None? {
        return;
      }
      currentQuestionIndex := 0;
      userAnswers := [];
      quizCompleted := false;
    }
  }

  /**
   * Completing a quiz at a moment later than every attempt saved for it
   * before means that reloading its route brings back exactly the answers
   * just saved.
   */
  lemma CompleteThenReload(log: seq<QuizAttempt>, quizId: string, now: int, answers: seq<UserAnswer>)
    requires forall i :: 0 <= i < |log| && log[i].quizId == quizId ==> log[i].timestamp < now
    ensures AnswersForQuiz(log + [QuizAttempt(quizId, now, answers)], quizId) == answers
  {
    SaveNewestThenLoad(log, QuizAttempt(quizId, now, answers));
  }
}
