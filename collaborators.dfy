/**
 * The external collaborators of the handler, as scripted oracles, and the
 * record of the calls made to them.
 *
 * `parse_question_with_llm` (acquisition) and `answer_with_data` (answering)
 * return generated code, its library list and the normalised questions;
 * `run_python_code` runs the code and returns a status and its output, or
 * raises. Each oracle is a total function of the call's inputs and of `n`,
 * the number of synthesis/execution pairs made before in the same request,
 * so that it may answer the same prompt differently on different calls (as a
 * language model, or a workspace changed by earlier code, may). The staged
 * files and the workspace folder, which every call also receives, are the
 * same throughout a request and are folded into the oracles.
 */
module Collaborators {

  datatype Synthesis = Synthesis(code: string, libraries: seq<string>, questions: string)

  /** What `run_python_code` does: return `{code, output}`, or raise. */
  datatype Execution = Status(status: int, output: string) | Raise(error: string)

  datatype Oracles = Oracles(
    parse: (nat, string) -> Synthesis,
    answer: (nat, string) -> Synthesis,
    run: (nat, string, seq<string>) -> Execution)

  /** The two phases: acquisition uses `parse_question_with_llm`, answering uses `answer_with_data`. */
  datatype Phase = Acquisition | Answering

  /**
   * One synthesis call and the execution of the code it returned. In the
   * handler every synthesis call is followed by exactly one execution, so a
   * request's calls are a sequence of attempts.
   */
  datatype Attempt = Attempt(phase: Phase, prompt: string, synthesis: Synthesis, outcome: Execution)

  function Synthesize(o: Oracles, phase: Phase, n: nat, prompt: string): Synthesis {
    match phase
    case Acquisition => o.parse(n, prompt)
    case Answering => o.answer(n, prompt)
  }

  /** `trace` is what the oracles answer to its prompts, the first attempt being call number `start`. */
  ghost predicate Replays(o: Oracles, start: nat, phase: Phase, trace: seq<Attempt>) {
    forall i :: 0 <= i < |trace| ==>
      trace[i].phase == phase &&
      trace[i].synthesis == Synthesize(o, phase, start + i, trace[i].prompt) &&
      trace[i].outcome == o.run(start + i, trace[i].synthesis.code, trace[i].synthesis.libraries)
  }

  /** A status of 0: the code ran and reported a recoverable failure. */
  predicate Retryable(e: Execution) {
    e.Status? && e.status == 0
  }

  /** A status of exactly 1: the code ran and reported success. */
  predicate Succeeded(e: Execution) {
    e.Status? && e.status == 1
  }

  /** Synthesis call number `n` in `phase` with `prompt`, then execution of the code it returned. */
  function Try(o: Oracles, phase: Phase, n: nat, prompt: string): Attempt {
    var synthesis := Synthesize(o, phase, n, prompt);
    Attempt(phase, prompt, synthesis, o.run(n, synthesis.code, synthesis.libraries))
  }
}
