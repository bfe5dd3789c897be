/**
 * The `analyze` request handler (main.py:25-146): staging and question
 * selection, acquisition, answering and resolution, in that order.
 */
module Handler {
  import opened Workspace
  import opened Collaborators
  import opened Orchestrator
  import opened Resolver

  /**
   * The reply once answering has ended: the resolution of the status it
   * settled on, the exception of the resynthesised first execution, or the
   * end of the raising retries the model follows.
   */
  function Conclude(end: AnsweringEnd, file: ResultFile): (r: Reply)
    ensures end.Settled? ==> r == Resolve(end.status, file)
    ensures r == Uncaught(AnswerRerun) <==> end == RerunRaised
    ensures r.Undetermined? <==> end == OutOfFuel
  {
    match end
    case Settled(status, _) => Resolve(status, file)
    case RerunRaised => Uncaught(AnswerRerun)
    case OutOfFuel => Undetermined(FuelExhausted)
  }

  /**
   * One request: `form` is the submitted form, `o` the collaborators,
   * `file` the state of result.json when it is read, and `fuel` the number of
   * raising answering retries the model follows. Besides the reply, the
   * method returns the calls of each phase, as the handler logs them, and how
   * answering ended, if it ran.
   */
  method Analyze(o: Oracles, form: seq<FormItem>, file: ResultFile, fuel: nat)
    returns (reply: Reply, acquisition: seq<Attempt>, answering: seq<Attempt>, end: Option<AnsweringEnd>)
    ensures reply == Response(400, Error(NoQuestionError)) <==> form == []
    ensures !QuestionOf(form).Chosen? ==> acquisition == [] && answering == []
    ensures QuestionOf(form) == FallbackToUpload ==> reply == Uncaught(FallbackOpen)
    ensures QuestionOf(form).FallbackToPath? ==> reply == Undetermined(FallbackPath)
    ensures QuestionOf(form).Chosen? ==> IsAcquisition(o, QuestionOf(form).text, acquisition)
    ensures acquisition != [] && !Succeeded(Last(acquisition).outcome) ==>
      answering == [] &&
      reply == if Last(acquisition).outcome.Raise? then Uncaught(AcquisitionRun)
               else Response(200, Message(ScrapeFailedMessage))
    ensures end.Some? <==> acquisition != [] && Succeeded(Last(acquisition).outcome)
    ensures end.Some? ==>
      IsAnswering(o, |acquisition|, Last(acquisition).synthesis.questions, fuel, answering, end.value) &&
      reply == Conclude(end.value, file)
  {
    acquisition, answering, end := [], [], None;
    var saved, files, question := Stage(form);
    StagingLinked(form);
    var selection := Select(saved, files, question);
    assert selection == QuestionOf(form);
    if selection == NoQuestion {
      reply := Response(400, Error(NoQuestionError));
      return;
    } else if selection == FallbackToUpload {
      reply := Uncaught(FallbackOpen);
      return;
    } else if selection.FallbackToPath? {
      reply := Undetermined(FallbackPath);
      return;
    }
    var questionText := selection.text;

    var response, result;
    response, result, acquisition := Acquire(o, questionText);
    if !(result.Status? && result.status == 1) {
      reply := if result.Raise? then Uncaught(AcquisitionRun) else Response(200, Message(ScrapeFailedMessage));
      return;
    }

    var ending;
    ending, answering := Answer(o, |acquisition|, response.questions, fuel);
    end := Some(ending);
    reply := Conclude(ending, file);
  }
}
