/**
 * The two retry loops of the handler (main.py:63-127).
 *
 * Acquisition synthesises code from the question text and runs it, and
 * resynthesises while the status is 0, at most three times, each time from
 * the question text and the latest output only. Answering synthesises from
 * the normalised questions of the last acquisition synthesis; it gives a
 * raising first execution one resynthesis with a plea for the JSON
 * structure, then resynthesises while the status is 0. In that loop an
 * execution that raises is a free retry: the counter is decremented and
 * incremented again, the last status is kept, and the next prompt asks for
 * the code/libraries structure.
 */
module Orchestrator {
  import opened Collaborators

  const MaxRetries := 3

  const ErrorLabel := "\nPrevious error: "
  const JsonPlea := " Please follow the JSON structure."
  const StructurePlea := " Follow the structure {'code': '', 'libraries': ''}"

  function Last(trace: seq<Attempt>): Attempt
    requires trace != []
  {
    trace[|trace| - 1]
  }

  // ---------------------------------------------------------------------
  // Acquisition (main.py:64-92)
  // ---------------------------------------------------------------------

  /** The prompt of an acquisition retry: the question text and the latest output. */
  function AcquisitionRetryPrompt(question: string, output: string): string {
    question + ErrorLabel + output
  }

  /** An acquisition retry prompt is the question text, the error label and the latest output, in that order. */
  lemma AcquisitionRetryPromptShape(question: string, output: string)
    ensures var r := AcquisitionRetryPrompt(question, output);
      |r| == |question| + |ErrorLabel| + |output| &&
      r[..|question|] == question && r[|question|..|question| + |ErrorLabel|] == ErrorLabel &&
      r[|question| + |ErrorLabel|..] == output
  {
    var r := AcquisitionRetryPrompt(question, output);
    assert r[..|question|] == question;
    assert r[|question| + |ErrorLabel|..] == output;
  }

  /**
   * The acquisition attempts for `question`: the first from the question
   * itself, each further one only after a status of 0 and from the question
   * and that attempt's output, at most `MaxRetries` further ones, and the
   * loop stops early only on an outcome other than status 0.
   */
  ghost predicate IsAcquisition(o: Oracles, question: string, trace: seq<Attempt>) {
    1 <= |trace| <= MaxRetries + 1 &&
    Replays(o, 0, Acquisition, trace) &&
    trace[0].prompt == question &&
    (forall i :: 0 <= i < |trace| - 1 ==>
      Retryable(trace[i].outcome) &&
      trace[i + 1].prompt == AcquisitionRetryPrompt(question, trace[i].outcome.output)) &&
    (|trace| <= MaxRetries ==> !Retryable(Last(trace).outcome))
  }

  /** Phase 1: the first synthesis and execution, then the retry loop. */
  method Acquire(o: Oracles, question: string)
    returns (response: Synthesis, result: Execution, trace: seq<Attempt>)
    ensures IsAcquisition(o, question, trace)
    ensures response == Last(trace).synthesis && result == Last(trace).outcome
  {
    var a := Try(o, Acquisition, 0, question);
    response, result := a.synthesis, a.outcome;
    trace := [a];
    var count := 0;
    while result.Status? && result.status == 0 && count < MaxRetries
      invariant 0 <= count <= MaxRetries && |trace| == count + 1
      invariant Replays(o, 0, Acquisition, trace) && trace[0].prompt == question
      invariant forall i :: 0 <= i < |trace| - 1 ==>
        Retryable(trace[i].outcome) &&
        trace[i + 1].prompt == AcquisitionRetryPrompt(question, trace[i].outcome.output)
      invariant response == Last(trace).synthesis && result == Last(trace).outcome
    {
      a := Try(o, Acquisition, count + 1, AcquisitionRetryPrompt(question, result.output));
      response, result := a.synthesis, a.outcome;
      trace := trace + [a];
      count := count + 1;
    }
  }

  /** Two call sequences that both satisfy `IsAcquisition` agree on their first `k` attempts. */
  lemma {:induction false} AcquisitionPrefixesAgree(o: Oracles, question: string, t: seq<Attempt>, u: seq<Attempt>, k: nat)
    requires IsAcquisition(o, question, t) && IsAcquisition(o, question, u)
    requires k <= |t| && k <= |u|
    ensures t[..k] == u[..k]
  {
    if k > 0 {
      AcquisitionPrefixesAgree(o, question, t, u, k - 1);
      var i := k - 1;
      assert t[i].prompt == u[i].prompt by {
        if i > 0 {
          assert t[i - 1] == t[..k - 1][i - 1] == u[..k - 1][i - 1] == u[i - 1];
        }
      }
      assert t[..k] == t[..k - 1] + [t[i]];
      assert u[..k] == u[..k - 1] + [u[i]];
    }
  }

  /** The acquisition phase is determined by the oracles and the question: `IsAcquisition` is a complete description. */
  lemma AcquisitionIsDetermined(o: Oracles, question: string, t: seq<Attempt>, u: seq<Attempt>)
    requires IsAcquisition(o, question, t) && IsAcquisition(o, question, u)
    ensures t == u
  {
    var k := if |t| < |u| then |t| else |u|;
    AcquisitionPrefixesAgree(o, question, t, u, k);
    assert t[k - 1] == u[k - 1] by {
      assert t[k - 1] == t[..k][k - 1] && u[k - 1] == u[..k][k - 1];
    }
    assert |t| == |u|;
    assert t == t[..k] && u == u[..k];
  }

  /** An executor that always reports status 0 gets exactly four attempts: the first and three retries. */
  lemma AcquisitionExhaustsRetries(o: Oracles, question: string, trace: seq<Attempt>)
    requires IsAcquisition(o, question, trace)
    requires forall i :: 0 <= i < |trace| ==> Retryable(trace[i].outcome)
    ensures |trace| == MaxRetries + 1
  {
    assert Retryable(Last(trace).outcome);
  }

  // ---------------------------------------------------------------------
  // Answering (main.py:95-127)
  // ---------------------------------------------------------------------

  /** The variables of the answering retry loop: the last status and output, `count` and `json_str_flag`. */
  datatype LoopVars = LoopVars(status: int, output: string, count: int, jsonStrFlag: bool)

  /** How answering ends. */
  datatype AnsweringEnd =
    | Settled(status: int, output: string)   // the loop exited with this last status
    | RerunRaised                            // the resynthesised first execution raised too (uncaught)
    | OutOfFuel                              // more raising retries than the model follows

  function LoopStart(status: int, output: string): LoopVars {
    LoopVars(status, output, 0, true)
  }

  /** The loop condition of main.py:109. */
  predicate Continues(v: LoopVars) {
    v.status == 0 && v.count < MaxRetries
  }

  /** The prompt of an answering retry (main.py:111-113). */
  function AnsweringRetryPrompt(questions: string, v: LoopVars): string {
    var base := questions + ErrorLabel + v.output;
    if v.jsonStrFlag then base else base + StructurePlea
  }

  /**
   * An answering retry prompt is the questions, the error label and the last
   * status output, followed by the structure plea exactly when the previous
   * execution raised.
   */
  lemma AnsweringRetryPromptShape(questions: string, v: LoopVars)
    ensures var r := AnsweringRetryPrompt(questions, v);
      |r| == |questions| + |ErrorLabel| + |v.output| + (if v.jsonStrFlag then 0 else |StructurePlea|) &&
      r[..|questions|] == questions && r[|questions|..|questions| + |ErrorLabel|] == ErrorLabel &&
      r[|questions| + |ErrorLabel|..|questions| + |ErrorLabel| + |v.output|] == v.output &&
      (!v.jsonStrFlag ==> r[|r| - |StructurePlea|..] == StructurePlea)
  {
    var base := questions + ErrorLabel + v.output;
    assert base[..|questions|] == questions;
    assert base[|questions|..|questions| + |ErrorLabel|] == ErrorLabel;
    assert base[|questions| + |ErrorLabel|..] == v.output;
  }

  /** The effect of one loop attempt with outcome `e` on the loop variables (main.py:118-127). */
  function AfterAttempt(v: LoopVars, e: Execution): LoopVars {
    match e
    case Raise(_) => LoopVars(v.status, v.output, v.count - 1 + 1, false)
    case Status(s, out) => LoopVars(s, out, v.count + 1, true)
  }

  /**
   * The net effect of one loop attempt: a raise keeps the last status, its
   * output and `count` (decremented and incremented again) and clears the
   * flag; a status replaces the last status and output, adds one to `count`
   * and sets the flag.
   */
  lemma AfterAttemptEffect(v: LoopVars, e: Execution)
    ensures var r := AfterAttempt(v, e);
      r.count == v.count + (if e.Raise? then 0 else 1) &&
      (r.jsonStrFlag <==> e.Status?) &&
      (e.Raise? ==> r.status == v.status && r.output == v.output) &&
      (e.Status? ==> r.status == e.status && r.output == e.output)
  {
  }


  /**
   * The loop variables before each attempt of `loop` and after the last one:
   * `init` first, then the effect of each attempt in turn.
   */
  function States(init: LoopVars, loop: seq<Attempt>): (vs: seq<LoopVars>)
    ensures |vs| == |loop| + 1 && vs[0] == init
    ensures forall i {:trigger loop[i]} :: 0 <= i < |loop| ==> vs[i + 1] == AfterAttempt(vs[i], loop[i].outcome)
    decreases |loop|
  {
    if loop == [] then [init]
    else
      var vs := States(init, loop[..|loop| - 1]);
      vs + [AfterAttempt(vs[|vs| - 1], Last(loop).outcome)]
  }

  /** The number of attempts whose execution raised. */
  function Raises(loop: seq<Attempt>): nat
    decreases |loop|
  {
    if loop == [] then 0 else Raises(loop[..|loop| - 1]) + (if Last(loop).outcome.Raise? then 1 else 0)
  }

  /** The loop variables after all of `loop`. */
  function Final(init: LoopVars, loop: seq<Attempt>): LoopVars {
    var vs := States(init, loop);
    vs[|vs| - 1]
  }

  /**
   * The loop attempts, from loop variables `init`: each is made only while the
   * loop condition holds, with the retry prompt of the variables before it;
   * the loop ends when the condition fails, or the model stops following it
   * at the raising retry number `fuel + 1`.
   */
  ghost predicate IsAnsweringLoop(questions: string, init: LoopVars, fuel: nat, loop: seq<Attempt>, end: AnsweringEnd) {
    LoopPrompts(questions, init, loop) &&
    match end
    case Settled(s, out) =>
      Raises(loop) <= fuel && !Continues(Final(init, loop)) &&
      s == Final(init, loop).status && out == Final(init, loop).output
    case OutOfFuel =>
      loop != [] && Last(loop).outcome.Raise? && Raises(loop) == fuel + 1
    case RerunRaised => false
  }

  /**
   * The answering attempts for `questions`, the first being call number
   * `start`: the first from the questions; if its execution raised, one more
   * from the questions and the JSON plea, whose raising is uncaught; then the
   * retry loop from the status the first part ended with.
   */
  ghost predicate IsAnswering(o: Oracles, start: nat, questions: string, fuel: nat, trace: seq<Attempt>, end: AnsweringEnd) {
    IsRepair(o, start, questions, trace) &&
    if RepairRaised(trace) then |trace| == 2 && end == RerunRaised
    else
      Replays(o, start + RepairLength(trace), Answering, LoopPart(trace)) &&
      IsAnsweringLoop(questions, LoopEntry(trace), fuel, LoopPart(trace), end)
  }

  /**
   * The answering attempts before the retry loop (main.py:95-105): the first
   * from the questions and, when its execution raised, one more from the
   * questions and the JSON plea.
   */
  ghost predicate IsRepair(o: Oracles, start: nat, questions: string, trace: seq<Attempt>) {
    trace != [] && trace[0] == Try(o, Answering, start, questions) &&
    (trace[0].outcome.Raise? ==> |trace| >= 2 && trace[1] == Try(o, Answering, start + 1, questions + JsonPlea))
  }

  /** The number of answering attempts before the retry loop: the first, and the repair when the first raised. */
  function RepairLength(trace: seq<Attempt>): nat
    requires trace != []
  {
    if trace[0].outcome.Raise? then 2 else 1
  }

  /** The last attempt before the retry loop raised: the resynthesised first execution raised too. */
  predicate RepairRaised(trace: seq<Attempt>)
    requires trace != [] && RepairLength(trace) <= |trace|
  {
    trace[RepairLength(trace) - 1].outcome.Raise?
  }

  /** The retry-loop attempts. */
  function LoopPart(trace: seq<Attempt>): seq<Attempt>
    requires trace != [] && RepairLength(trace) <= |trace|
  {
    trace[RepairLength(trace)..]
  }

  /** The loop variables on entry to the retry loop: the status the last attempt before it returned. */
  function LoopEntry(trace: seq<Attempt>): LoopVars
    requires trace != [] && RepairLength(trace) <= |trace| && !RepairRaised(trace)
  {
    var e := trace[RepairLength(trace) - 1].outcome;
    LoopStart(e.status, e.output)
  }


  /** The prompts of `loop` are those `IsAnsweringLoop` demands. */
  ghost predicate LoopPrompts(questions: string, init: LoopVars, loop: seq<Attempt>) {
    var vs := States(init, loop);
    forall i {:trigger loop[i]} :: 0 <= i < |loop| ==>
      Continues(vs[i]) && loop[i].prompt == AnsweringRetryPrompt(questions, vs[i])
  }

  lemma LoopPromptsExtend(questions: string, init: LoopVars, loop: seq<Attempt>, a: Attempt)
    requires LoopPrompts(questions, init, loop)
    requires Continues(Final(init, loop))
    requires a.prompt == AnsweringRetryPrompt(questions, Final(init, loop))
    ensures LoopPrompts(questions, init, loop + [a])
    ensures Final(init, loop + [a]) == AfterAttempt(Final(init, loop), a.outcome)
    ensures Raises(loop + [a]) == Raises(loop) + (if a.outcome.Raise? then 1 else 0)
  {
    var ext := loop + [a];
    assert ext[..|loop|] == loop;
    var vs := States(init, loop);
    var ws := States(init, ext);
    assert ws == vs + [AfterAttempt(vs[|vs| - 1], a.outcome)];
    forall i | 0 <= i < |ext|
      ensures Continues(ws[i]) && ext[i].prompt == AnsweringRetryPrompt(questions, ws[i])
    {
      if i < |loop| {
        assert ext[i] == loop[i] && ws[i] == vs[i];
      } else {
        assert ext[i] == a && ws[i] == vs[|vs| - 1];
      }
    }
  }

  lemma ReplaysExtend(o: Oracles, start: nat, phase: Phase, trace: seq<Attempt>, a: Attempt)
    requires Replays(o, start, phase, trace)
    requires a == Try(o, phase, start + |trace|, a.prompt)
    ensures Replays(o, start, phase, trace + [a])
  {
    assert forall i :: 0 <= i < |trace| ==> (trace + [a])[i] == trace[i];
    assert (trace + [a])[|trace|] == [a][0];
  }

  /** The retry loop of phase 2 (main.py:107-127), its first attempt being call number `calls`. */
  method AnswerLoop(o: Oracles, calls: nat, questions: string, status0: int, output0: string, fuel: nat)
    returns (end: AnsweringEnd, loop: seq<Attempt>)
    ensures Replays(o, calls, Answering, loop)
    ensures IsAnsweringLoop(questions, LoopStart(status0, output0), fuel, loop, end)
  {
    ghost var init := LoopStart(status0, output0);
    var status, output := status0, output0;
    var n := calls;
    var count := 0;
    var jsonStrFlag := true;
    var fuelLeft := fuel;
    loop := [];
    while status == 0 && count < MaxRetries
      invariant 0 <= count <= MaxRetries && n == calls + |loop|
      invariant Replays(o, calls, Answering, loop)
      invariant LoopPrompts(questions, init, loop)
      invariant LoopVars(status, output, count, jsonStrFlag) == Final(init, loop)
      invariant Raises(loop) + fuelLeft == fuel
      decreases MaxRetries - count, fuelLeft
    {
      var prompt := AnsweringRetryPrompt(questions, LoopVars(status, output, count, jsonStrFlag));
      jsonStrFlag := false;
      var a := Try(o, Answering, n, prompt);
      LoopPromptsExtend(questions, init, loop, a);
      ReplaysExtend(o, calls, Answering, loop, a);
      loop := loop + [a];
      n := n + 1;
      if a.outcome.Status? {
        status, output := a.outcome.status, a.outcome.output;
        jsonStrFlag := true;
      } else {
        count := count - 1;
        if fuelLeft == 0 {
          end := OutOfFuel;
          return;
        }
        fuelLeft := fuelLeft - 1;
      }
      count := count + 1;
    }
    end := Settled(status, output);
  }

  /** Phase 2: the first answer synthesis and execution with its one-shot repair (main.py:95-105), then the retry loop. */
  method Answer(o: Oracles, start: nat, questions: string, fuel: nat) returns (end: AnsweringEnd, trace: seq<Attempt>)
    ensures IsAnswering(o, start, questions, fuel, trace, end)
  {
    var a := Try(o, Answering, start, questions);
    trace := [a];
    if a.outcome.Raise? {
      var b := Try(o, Answering, start + 1, questions + JsonPlea);
      trace := trace + [b];
      if b.outcome.Raise? {
        end := RerunRaised;
        return;
      }
    }
    var last := trace[|trace| - 1].outcome;
    var loop;
    end, loop := AnswerLoop(o, start + |trace|, questions, last.status, last.output, fuel);
    ComposeAnswering(o, start, questions, fuel, trace, loop, end);
    trace := trace + loop;
  }

  /** The attempts before the retry loop, followed by a loop from the status they reached, are an answering phase. */
  lemma ComposeAnswering(o: Oracles, start: nat, questions: string, fuel: nat, repair: seq<Attempt>, loop: seq<Attempt>, end: AnsweringEnd)
    requires IsRepair(o, start, questions, repair) && |repair| == RepairLength(repair) && !RepairRaised(repair)
    requires Replays(o, start + |repair|, Answering, loop)
    requires IsAnsweringLoop(questions, LoopEntry(repair), fuel, loop, end)
    ensures IsAnswering(o, start, questions, fuel, repair + loop, end)
  {
    var trace := repair + loop;
    assert trace[0] == repair[0];
    assert |repair| == 2 ==> trace[1] == repair[1];
    assert trace[|repair| - 1] == repair[|repair| - 1];
    assert LoopPart(trace) == loop;
    LoopUnderEquality(o, questions, fuel, start + |repair|, LoopEntry(repair), loop, start + RepairLength(trace), LoopEntry(trace), LoopPart(trace), end);
  }

  /**
   * The loop description only depends on the values of its arguments. The
   * two copies of the arguments exist only to keep the proof of
   * `ComposeAnswering` within the verifier's resource limit: rewriting the
   * description under an equality there is far more expensive than here.
   */
  lemma LoopUnderEquality(o: Oracles, questions: string, fuel: nat, c1: nat, i1: LoopVars, l1: seq<Attempt>, c2: nat, i2: LoopVars, l2: seq<Attempt>, end: AnsweringEnd)
    requires c1 == c2 && i1 == i2 && l1 == l2
    requires Replays(o, c1, Answering, l1) && IsAnsweringLoop(questions, i1, fuel, l1, end)
    ensures Replays(o, c2, Answering, l2) && IsAnsweringLoop(questions, i2, fuel, l2, end)
  {
  }

  /** The loop makes an attempt only if its condition holds at the start. */
  lemma LoopEntersOnlyIfContinuing(questions: string, init: LoopVars, loop: seq<Attempt>)
    requires LoopPrompts(questions, init, loop)
    ensures loop != [] ==> Continues(init)
  {
    if loop != [] {
      assert loop[0].prompt == AnsweringRetryPrompt(questions, States(init, loop)[0]);
    }
  }

  /** `count` goes up by one for each attempt that returned a status and never for one that raised. */
  lemma {:induction false} CountIsStatusAttempts(init: LoopVars, loop: seq<Attempt>)
    ensures Final(init, loop).count == init.count + |loop| - Raises(loop)
    decreases |loop|
  {
    if loop != [] {
      CountIsStatusAttempts(init, loop[..|loop| - 1]);
    }
  }

  /** At most three attempts of the answering loop return a status; raising attempts are not counted. */
  lemma AtMostThreeCountedRetries(questions: string, init: LoopVars, fuel: nat, loop: seq<Attempt>, end: AnsweringEnd)
    requires init.count == 0
    requires IsAnsweringLoop(questions, init, fuel, loop, end)
    ensures |loop| - Raises(loop) <= MaxRetries
  {
    CountIsStatusAttempts(init, loop);
    if loop != [] {
      var k := |loop| - 1;
      var vs := States(init, loop);
      assert Continues(vs[k]) && vs[k + 1] == AfterAttempt(vs[k], loop[k].outcome);
    }
  }

  /** An answering loop whose attempts all return a status has no raising attempt. */
  lemma {:induction false} NoRaises(loop: seq<Attempt>)
    requires forall i :: 0 <= i < |loop| ==> loop[i].outcome.Status?
    ensures Raises(loop) == 0
    decreases |loop|
  {
    if loop != [] {
      var init := loop[..|loop| - 1];
      assert forall i :: 0 <= i < |init| ==> init[i] == loop[i];
      NoRaises(init);
    }
  }

  /**
   * The phase-2 counterpart of `AcquisitionExhaustsRetries`: when the loop
   * is entered on status 0 and every attempt reports status 0 again, it
   * settles on status 0 after exactly three attempts.
   */
  lemma AnswerLoopExhausts(questions: string, init: LoopVars, fuel: nat, loop: seq<Attempt>, end: AnsweringEnd)
    requires init.status == 0 && init.count == 0
    requires IsAnsweringLoop(questions, init, fuel, loop, end)
    requires forall i :: 0 <= i < |loop| ==> loop[i].outcome.Status? && loop[i].outcome.status == 0
    ensures |loop| == MaxRetries && end.Settled? && end.status == 0
  {
    NoRaises(loop);
    CountIsStatusAttempts(init, loop);
    AtMostThreeCountedRetries(questions, init, fuel, loop, end);
    var vs := States(init, loop);
    if loop != [] {
      var k := |loop| - 1;
      assert vs[k + 1] == AfterAttempt(vs[k], loop[k].outcome);
    }
    assert Final(init, loop).status == 0;
  }

  /**
   * A loop attempt that raised leaves the last status, its output and `count`
   * as they were, and the next attempt's prompt repeats that output and asks
   * for the code/libraries structure.
   */
  lemma AfterRaisingAttempt(questions: string, init: LoopVars, fuel: nat, loop: seq<Attempt>, end: AnsweringEnd, i: nat)
    requires IsAnsweringLoop(questions, init, fuel, loop, end)
    requires i < |loop| && loop[i].outcome.Raise?
    ensures var before, after := States(init, loop)[i], States(init, loop)[i + 1];
      after.status == before.status && after.output == before.output && after.count == before.count
    ensures i + 1 < |loop| ==>
      loop[i + 1].prompt == questions + ErrorLabel + States(init, loop)[i].output + StructurePlea
  {
    var vs := States(init, loop);
    assert vs[i + 1] == AfterAttempt(vs[i], loop[i].outcome);
    if i + 1 < |loop| {
      assert loop[i + 1].prompt == AnsweringRetryPrompt(questions, vs[i + 1]);
    }
  }

  /**
   * A loop attempt that returned status `s` with output `out` raises `count`
   * by one, and the next attempt's prompt carries exactly that output and no
   * structure plea.
   */
  lemma AfterStatusAttempt(questions: string, init: LoopVars, fuel: nat, loop: seq<Attempt>, end: AnsweringEnd, i: nat)
    requires IsAnsweringLoop(questions, init, fuel, loop, end)
    requires i < |loop| && loop[i].outcome.Status?
    ensures States(init, loop)[i + 1].count == States(init, loop)[i].count + 1
    ensures i + 1 < |loop| ==> loop[i + 1].prompt == questions + ErrorLabel + loop[i].outcome.output
  {
    var vs := States(init, loop);
    assert vs[i + 1] == AfterAttempt(vs[i], loop[i].outcome);
    if i + 1 < |loop| {
      assert loop[i + 1].prompt == AnsweringRetryPrompt(questions, vs[i + 1]);
    }
  }

  /** Every loop prompt starts with the normalised questions. */
  lemma LoopPromptsExtendQuestions(questions: string, init: LoopVars, loop: seq<Attempt>)
    requires LoopPrompts(questions, init, loop)
    ensures forall i :: 0 <= i < |loop| ==> questions <= loop[i].prompt
  {
    forall i | 0 <= i < |loop| ensures questions <= loop[i].prompt {
      var v := States(init, loop)[i];
      var tail := ErrorLabel + v.output;
      var extra := if v.jsonStrFlag then tail else tail + StructurePlea;
      assert loop[i].prompt == questions + extra;
    }
  }

  /** Every answering prompt starts with the normalised questions it was given. */
  lemma AnsweringPromptsExtendQuestions(o: Oracles, start: nat, questions: string, fuel: nat, trace: seq<Attempt>, end: AnsweringEnd)
    requires IsAnswering(o, start, questions, fuel, trace, end)
    ensures forall i :: 0 <= i < |trace| ==> questions <= trace[i].prompt
  {
    var f := RepairLength(trace);
    RepairPromptsExtendQuestions(o, start, questions, trace);
    if RepairRaised(trace) {
      assert |trace| == f;
    } else {
      SuffixPromptsExtendQuestions(questions, LoopEntry(trace), trace, f);
    }
  }

  lemma RepairPromptsExtendQuestions(o: Oracles, start: nat, questions: string, trace: seq<Attempt>)
    requires IsRepair(o, start, questions, trace)
    ensures forall i :: 0 <= i < RepairLength(trace) ==> questions <= trace[i].prompt
  {
    if RepairLength(trace) == 2 {
      assert trace[1].prompt == questions + JsonPlea;
    }
  }

  lemma SuffixPromptsExtendQuestions(questions: string, init: LoopVars, trace: seq<Attempt>, f: nat)
    requires f <= |trace| && LoopPrompts(questions, init, trace[f..])
    ensures forall i :: f <= i < |trace| ==> questions <= trace[i].prompt
  {
    LoopPromptsExtendQuestions(questions, init, trace[f..]);
    assert forall i :: f <= i < |trace| ==> trace[i] == trace[f..][i - f];
  }

  /** A prefix of attempts has no more raising attempts than the whole, and fewer when a later last attempt raised. */
  lemma {:induction false} RaisesPrefix(loop: seq<Attempt>, j: nat)
    requires j <= |loop|
    ensures Raises(loop[..j]) <= Raises(loop)
    ensures j < |loop| && Last(loop).outcome.Raise? ==> Raises(loop[..j]) < Raises(loop)
    decreases |loop|
  {
    if j < |loop| {
      var init := loop[..|loop| - 1];
      RaisesPrefix(init, j);
      assert init[..j] == loop[..j];
    } else {
      assert loop[..j] == loop;
    }
  }

  /** The variables before any attempt of the loop satisfy the loop condition. */
  lemma ContinuesAt(questions: string, init: LoopVars, loop: seq<Attempt>, k: nat)
    requires LoopPrompts(questions, init, loop) && k <= |loop|
    ensures k < |loop| ==> Continues(States(init, loop)[k])
  {
    if k < |loop| {
      assert loop[k].prompt == AnsweringRetryPrompt(questions, States(init, loop)[k]);
    }
  }

  /**
   * Two answering loops that start from the same call number and the same
   * variables and replay the same oracles agree on their first `k` attempts,
   * and so on the variables after them. Each loop comes with its own copy of
   * the start, equal to the other's; one shared start would do, but the
   * copies keep the proofs here within the verifier's resource limit.
   */
  lemma {:induction false} LoopPrefixesAgree(o: Oracles, questions: string,
                                             ct: nat, it: LoopVars, t: seq<Attempt>,
                                             cu: nat, iu: LoopVars, u: seq<Attempt>, k: nat)
    requires ct == cu && it == iu
    requires Replays(o, ct, Answering, t) && LoopPrompts(questions, it, t)
    requires Replays(o, cu, Answering, u) && LoopPrompts(questions, iu, u)
    requires k <= |t| && k <= |u|
    ensures t[..k] == u[..k]
    ensures States(it, t)[k] == States(iu, u)[k]
  {
    if k > 0 {
      LoopPrefixesAgree(o, questions, ct, it, t, cu, iu, u, k - 1);
      var i := k - 1;
      assert t[i].prompt == AnsweringRetryPrompt(questions, States(it, t)[i]);
      assert u[i].prompt == AnsweringRetryPrompt(questions, States(iu, u)[i]);
      SameCall(o, Answering, ct, t, u, i);
      PrefixStep(t, u, k);
    }
  }

  /** Attempt `i` of two call sequences that replay the same oracles from the same call number is fixed by its prompt. */
  lemma SameCall(o: Oracles, phase: Phase, start: nat, t: seq<Attempt>, u: seq<Attempt>, i: nat)
    requires Replays(o, start, phase, t) && Replays(o, start, phase, u)
    requires i < |t| && i < |u| && t[i].prompt == u[i].prompt
    ensures t[i] == u[i]
  {
  }

  lemma PrefixStep(t: seq<Attempt>, u: seq<Attempt>, k: nat)
    requires 0 < k <= |t| && k <= |u| && t[..k - 1] == u[..k - 1] && t[k - 1] == u[k - 1]
    ensures t[..k] == u[..k]
  {
    assert t[..k] == t[..k - 1] + [t[k - 1]];
    assert u[..k] == u[..k - 1] + [u[k - 1]];
  }

  /**
   * Of two such answering loops, neither is a proper prefix of the other.
   * As in `LoopPrefixesAgree`, the duplicated, equal start arguments only
   * keep the proof within the verifier's resource limit.
   */
  lemma LoopNotLonger(o: Oracles, questions: string, fuel: nat,
                      ct: nat, it: LoopVars, t: seq<Attempt>, et: AnsweringEnd,
                      cu: nat, iu: LoopVars, u: seq<Attempt>, eu: AnsweringEnd)
    requires ct == cu && it == iu
    requires Replays(o, ct, Answering, t) && IsAnsweringLoop(questions, it, fuel, t, et)
    requires Replays(o, cu, Answering, u) && IsAnsweringLoop(questions, iu, fuel, u, eu)
    requires |t| <= |u|
    ensures |t| == |u|
  {
    var k := |t|;
    LoopPrefixesAgree(o, questions, ct, it, t, cu, iu, u, k);
    assert t[..k] == t;
    if et.Settled? {
      ContinuesAt(questions, iu, u, k);
      assert !Continues(States(iu, u)[k]);
    } else {
      RaisesPrefix(u, k);
      assert Raises(t) == fuel + 1 <= Raises(u);
    }
  }

  /**
   * The answering loop is determined by the oracles, the prompt base, the
   * first call number, the start variables and the fuel. The duplicated,
   * equal start arguments only keep the proof within the verifier's
   * resource limit.
   */
  lemma LoopIsDetermined(o: Oracles, questions: string, fuel: nat,
                         ct: nat, it: LoopVars, t: seq<Attempt>, et: AnsweringEnd,
                         cu: nat, iu: LoopVars, u: seq<Attempt>, eu: AnsweringEnd)
    requires ct == cu && it == iu
    requires Replays(o, ct, Answering, t) && IsAnsweringLoop(questions, it, fuel, t, et)
    requires Replays(o, cu, Answering, u) && IsAnsweringLoop(questions, iu, fuel, u, eu)
    ensures t == u && et == eu
  {
    if |t| <= |u| {
      LoopNotLonger(o, questions, fuel, ct, it, t, et, cu, iu, u, eu);
    } else {
      LoopNotLonger(o, questions, fuel, cu, iu, u, eu, ct, it, t, et);
    }
    LoopPrefixesAgree(o, questions, ct, it, t, cu, iu, u, |t|);
    assert t == t[..|t|] && u == u[..|u|];
    assert et == eu;
  }

  /** Two answering traces for the same oracles and questions agree on the attempts before the retry loop. */
  lemma RepairPrefixesAgree(o: Oracles, start: nat, questions: string, t: seq<Attempt>, u: seq<Attempt>)
    requires IsRepair(o, start, questions, t) && IsRepair(o, start, questions, u)
    ensures RepairLength(t) == RepairLength(u) && t[..RepairLength(t)] == u[..RepairLength(u)]
    ensures RepairRaised(t) == RepairRaised(u)
    ensures !RepairRaised(t) ==> LoopEntry(t) == LoopEntry(u)
  {
    if RepairLength(t) == 2 {
      assert t[..2] == [t[0], t[1]] && u[..2] == [u[0], u[1]];
    } else {
      assert t[..1] == [t[0]] && u[..1] == [u[0]];
    }
  }

  /**
   * The answering phase is determined by the oracles, its first call number,
   * the normalised questions and the fuel: `IsAnswering` is a complete
   * description, of the calls and of how answering ends.
   */
  lemma AnsweringIsDetermined(o: Oracles, start: nat, questions: string, fuel: nat,
                              t: seq<Attempt>, et: AnsweringEnd, u: seq<Attempt>, eu: AnsweringEnd)
    requires IsAnswering(o, start, questions, fuel, t, et)
    requires IsAnswering(o, start, questions, fuel, u, eu)
    ensures t == u && et == eu
  {
    RepairPrefixesAgree(o, start, questions, t, u);
    var f := RepairLength(t);
    if RepairRaised(t) {
      assert t == t[..f] && u == u[..f];
    } else {
      LoopIsDetermined(o, questions, fuel,
                       start + RepairLength(t), LoopEntry(t), LoopPart(t), et,
                       start + RepairLength(u), LoopEntry(u), LoopPart(u), eu);
      SplitEqual(t, u, f);
    }
  }

  lemma SplitEqual(t: seq<Attempt>, u: seq<Attempt>, f: nat)
    requires f <= |t| && f <= |u| && t[..f] == u[..f] && t[f..] == u[f..]
    ensures t == u
  {
    assert t == t[..f] + t[f..] && u == u[..f] + u[f..];
  }

  /**
   * When both phases succeed at once, the request makes exactly two synthesis
   * calls and two executions, and answering settles with status 1.
   */
  lemma BothPhasesFirstTry(o: Oracles, question: string, fuel: nat, acquisition: seq<Attempt>, answering: seq<Attempt>, end: AnsweringEnd)
    requires IsAcquisition(o, question, acquisition)
    requires Succeeded(acquisition[0].outcome)
    requires IsAnswering(o, |acquisition|, Last(acquisition).synthesis.questions, fuel, answering, end)
    requires Succeeded(answering[0].outcome)
    ensures |acquisition| == 1 && |answering| == 1
    ensures end == Settled(1, answering[0].outcome.output)
  {
    LoopEntersOnlyIfContinuing(Last(acquisition).synthesis.questions, LoopEntry(answering), LoopPart(answering));
  }
}
