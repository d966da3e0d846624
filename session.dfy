/**
 * The interview session record and the three ways it changes: a successful
 * start replaces it, a submitted answer appends to it, and the evaluation
 * writes its feedback once. The model's replies are parameters: a function
 * from prompt to reply for question generation, and one that may produce no
 * reply for the evaluation, whose failure leaves the record as it was.
 */
module Session {
  import opened Options
  import opened Strings
  import opened QuestionParser
  import opened Prompts
  import opened Evaluation

  /** What text extraction returns for a file type it does not handle. */
  const UnsupportedFileType: string := "Unsupported file type."

  datatype StartOutcome = Started | MissingInput | CvUnreadable | NoQuestions

  datatype SubmitOutcome = Accepted | EmptyAnswer

  datatype EvaluateOutcome = Recorded | CallFailed

  /** An extracted CV text the start accepts: not empty and not the unsupported-type message. */
  predicate Readable(cvText: string) {
    cvText != [] && cvText != UnsupportedFileType
  }

  class InterviewState {
    var questions: seq<QuestionRecord>
    var currentQuestionIndex: nat
    var userResponses: seq<string>
    var feedback: Option<Verdict>
    var chatStarted: bool

    /**
     * One stored answer per answered question; questions only once started;
     * the record of a new session until then; feedback only after the last
     * answer; every stored answer stripped and not empty.
     */
    predicate Valid()
      reads this
    {
      && currentQuestionIndex == |userResponses| <= |questions|
      && (chatStarted ==> questions != [])
      && (!chatStarted ==> questions == [] && currentQuestionIndex == 0 && feedback == None)
      && (feedback.Some? ==> currentQuestionIndex == |questions|)
      && forall k :: 0 <= k < |userResponses| ==> userResponses[k] != [] && IsStripped(userResponses[k])
    }

    /** Line 153: a question is on screen. */
    predicate Asking()
      reads this
    {
      chatStarted && currentQuestionIndex < |questions|
    }

    /** Line 172: every question is answered and no feedback is stored yet. */
    predicate Evaluating()
      reads this
    {
      chatStarted && currentQuestionIndex >= |questions| && feedback.None?
    }

    /** Lines 120-127: the record a new session starts with. */
    constructor ()
      ensures questions == [] && currentQuestionIndex == 0 && userResponses == []
      ensures feedback == None && !chatStarted
      ensures Valid()
    {
      questions := [];
      currentQuestionIndex := 0;
      userResponses := [];
      feedback := None;
      chatStarted := false;
    }

    /**
     * Lines 129-150, "Start Interview": `cvText` is the extracted CV text, or
     * `None` when no file is uploaded. A missing file or an empty job
     * description, an unreadable CV, or a reply without questions leaves the
     * record unchanged; otherwise the parsed questions replace it whole.
     */
    method Start(template: string, cvText: Option<string>, jd: string, complete: string -> string)
      returns (outcome: StartOutcome)
      requires Valid()
      modifies this
      ensures Valid()
      ensures cvText.None? || jd == [] ==> outcome == MissingInput
      ensures cvText.Some? && jd != [] && !Readable(cvText.value) ==> outcome == CvUnreadable
      ensures cvText.Some? && jd != [] && Readable(cvText.value) ==>
        var parsed := Parse(complete(GenerationPrompt(template, cvText.value, jd)));
        outcome == (if parsed == [] then NoQuestions else Started)
        && (parsed != [] ==> questions == parsed)
      ensures outcome == Started ==>
        currentQuestionIndex == 0 && userResponses == [] && feedback == None && chatStarted
      ensures outcome != Started ==>
        questions == old(questions) && currentQuestionIndex == old(currentQuestionIndex)
        && userResponses == old(userResponses) && feedback == old(feedback) && chatStarted == old(chatStarted)
    {
      if cvText.None? || jd == [] {
        return MissingInput;
      }
      var cv := cvText.value;
      if !Readable(cv) {
        return CvUnreadable;
      }
      var questionsText := complete(GenerationPrompt(template, cv, jd));
      var parsed := ParseQuestions(questionsText);
      if parsed == [] {
        return NoQuestions;
      }
      questions := parsed;
      currentQuestionIndex := 0;
      userResponses := [];
      feedback := None;
      chatStarted := true;
      outcome := Started;
    }

    /**
     * Lines 163-169, "Submit" while a question is on screen: a blank answer
     * changes nothing; any other answer is stored stripped and the next
     * question comes up.
     */
    method Submit(answer: string) returns (outcome: SubmitOutcome)
      requires Valid() && Asking()
      modifies this
      ensures Valid()
      ensures outcome == (if Strip(answer) == [] then EmptyAnswer else Accepted)
      ensures outcome == Accepted ==>
        userResponses == old(userResponses) + [Strip(answer)]
        && currentQuestionIndex == old(currentQuestionIndex) + 1
      ensures outcome == EmptyAnswer ==>
        userResponses == old(userResponses) && currentQuestionIndex == old(currentQuestionIndex)
      ensures questions == old(questions) && feedback == old(feedback) && chatStarted == old(chatStarted)
    {
      var a := Strip(answer);
      if a != [] {
        userResponses := userResponses + [a];
        currentQuestionIndex := currentQuestionIndex + 1;
        outcome := Accepted;
      } else {
        outcome := EmptyAnswer;
      }
    }

    /**
     * Lines 172-211, the final evaluation: the prompt lists every question
     * with its answer; a reply is read into the feedback and the score, and
     * a failed call stores nothing. Once stored, the feedback ends the
     * evaluation phase, so it is written at most once.
     */
    method Evaluate(header: string, complete: string -> Option<string>) returns (outcome: EvaluateOutcome)
      requires Valid() && Evaluating()
      modifies this
      ensures Valid()
      ensures var reply := complete(EvaluationPrompt(header, questions, userResponses));
        && outcome == (if reply.Some? then Recorded else CallFailed)
        && feedback == (if reply.Some? then Some(ParseEvaluation(reply.value)) else None)
      ensures outcome == Recorded ==> !Evaluating()
      ensures questions == old(questions) && currentQuestionIndex == old(currentQuestionIndex)
      ensures userResponses == old(userResponses) && chatStarted == old(chatStarted)
    {
      var prompt := BuildEvaluationPrompt(header, questions, userResponses);
      var reply := complete(prompt);
      if reply.Some? {
        feedback := Some(ParseEvaluation(reply.value));
        outcome := Recorded;
      } else {
        outcome := CallFailed;
      }
    }
  }
}
