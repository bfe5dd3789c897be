# A verified model of the `/api` analysis handler

The handler `analyze` (main.py) takes a multipart form: a question file and
any data files. It stages them in a per-request workspace and picks the
question text. Then it runs two synthesise-and-execute phases against a
language-model client and a code runner:

- acquisition, which obtains the data;
- answering, which computes the answers.

Each phase has its own retry loop that feeds execution errors back into the
prompt. Finally the handler turns the last status and the `result.json`
artifact in the workspace into a JSON reply.

This project models that handler in Dafny, as the imperative code it is.
The language-model client and the code runner are scripted oracles. The methods
return a trace of every synthesis call, with its prompt, and the execution
that follows it (main.py:64-127).

- `Workspace` (workspace.dfy) models the staging loop over the form items and
  the insertion-ordered `saved_files` dict. It also models the choice of the
  question: the last `questions.txt` file in any letter case, otherwise the
  file behind the first key of `saved_files`. Reference folds (`SavedOf`,
  `FilesOf`, `QuestionFileOf`) specify the loop, and lemmas state what they
  amount to in terms of the form.
- `Collaborators` (collaborators.dfy) models `parse_question_with_llm`,
  `answer_with_data` and `run_python_code` as total functions. Each one also
  receives `n`, the number of synthesis/execution pairs made earlier in the
  request, so scripted answers may change from call to call. `Attempt` is one
  synthesis call plus the execution of the code it returned. `Replays` says a
  trace is what the oracles answer.
- `Orchestrator` (orchestrator.dfy) models the acquisition loop (`Acquire`)
  and the answering phase: its one-shot repair (`Answer`) and its retry loop
  with free retries on exceptions (`AnswerLoop`). `IsAcquisition` and
  `IsAnswering` describe the legal call sequences declaratively. The methods
  are proved against them, and lemmas derive the call bounds, prompt shapes
  and counter accounting from them.
- `Resolver` (resolver.dfy) models the replies and the resolution of the last
  status against `result.json`, which is missing, valid or invalid.
- `Handler` (handler.dfy) models the whole request, `Analyze`.

In the code, an acquisition abort never looks at `result.json`. A status
other than 0 or 1, or retries used up without success, immediately returns
the 200 reply "Error occurred while scraping after retries." (main.py:91-92).
Only the final answering status is resolved against the artifact, so a
`result.json` written during acquisition is never returned when acquisition
aborts.

## Model

| member | source | states |
|---|---|---|
| `Workspace.SavedFiles.Put` | main.py:42-50 | Dict assignment keeps the key list duplicate-free and in step with the entries. An existing key keeps its position; a new key goes last. |
| `Workspace.SavedOf` | main.py:37-50 | `saved_files` after the loop is a valid insertion-ordered dict with no more keys than form items. |
| `Workspace.Stage` | main.py:37-50 | The staging loop leaves `saved_files`, the workspace files and the question-file text equal to their reference folds over the form. |
| `Workspace.SavedLastWins` | main.py:37-50 | Each key of `saved_files` holds the staged value of the last form item stored under it. |
| `Workspace.SavedKeys` | main.py:37-50 | A key is in `saved_files` exactly when some form item is stored under it: the filename for files, the field name otherwise. |
| `Workspace.SavedFirstKey` | main.py:42-55 | `saved_files` is empty only for an empty form. Its first key is the key of the first form item, and later overwrites do not move it. |
| `Workspace.FilesLastWins` | main.py:38-41 | The workspace file with a given name holds the content of the last upload with that filename. |
| `Workspace.StagingLinked` | main.py:39-42 | Every staged-file entry of `saved_files` is keyed by its own filename, and that file exists in the workspace. |
| `Workspace.QuestionFileAbsent` | main.py:33-48 | The question-file text is unset exactly when no file's lower-cased name is `questions.txt`. |
| `Workspace.QuestionFileLastWins` | main.py:44-48 | With question files present, the question-file text is the content of the last one in form order. |
| `Workspace.QuestionFromQuestionFile` | main.py:37-48 | The selected question is the content of the last `questions.txt` file in any letter case, whatever the other items are. |
| `Workspace.QuestionFromFirstEntry` | main.py:52-58 | Without a question file, the question comes from the first key of `saved_files`: the content of the last item stored under the first item's key when that item is a file, otherwise the fallback that opens an upload without a filename or a raw text value. |
| `Workspace.Select` | main.py:52-58 | A question-file text is used as it is. Without one, the first key of `saved_files` decides: a staged file gives its workspace content; an upload without a filename and a raw text value each give their own fallback outcome. No question is found exactly when there is no question-file text and `saved_files` is empty. |
| `Workspace.QuestionOf` | main.py:32-61 | The question selected after staging the form is missing exactly when the form is empty. |
| `Orchestrator.AcquisitionRetryPromptShape` | main.py:80 | The phase-1 retry prompt is the question text, then "\nPrevious error: ", then the last output, with nothing else. |
| `Orchestrator.Acquire` | main.py:63-89 | Phase 1 makes 1 to 4 attempts. The first prompt is the question text. Another attempt follows only a status of 0, and only three times; its prompt is the question text, "\nPrevious error: " and the latest output. Otherwise the loop stops. The method returns the last synthesis, the last execution and the attempts made. |
| `Orchestrator.AcquisitionPrefixesAgree` | main.py:77-89 | Two phase-1 call sequences for the same oracles and question agree attempt by attempt. |
| `Orchestrator.AcquisitionIsDetermined` | main.py:77-89 | The phase-1 description is complete: at most one call sequence satisfies it for given oracles and question. |
| `Orchestrator.AcquisitionExhaustsRetries` | main.py:78-89 | An executor that keeps reporting status 0 gets exactly four attempts: the first and three retries. |
| `Orchestrator.AnsweringRetryPromptShape` | main.py:111-113 | The phase-2 retry prompt is the normalised questions, the label and the last status output. It has the structure plea appended exactly when `json_str_flag` is false; its length shows nothing else is added. |
| `Orchestrator.AfterAttemptEffect` | main.py:118-127 | A raising attempt keeps the status, output and `count` and clears `json_str_flag`. An attempt that returns a status takes its status and output, adds one to `count` and sets the flag. |
| `Orchestrator.AnswerLoop` | main.py:107-127 | The phase-2 loop. Each attempt runs only while the last status is 0 and `count` is within bounds. Its prompt is the normalised questions, the label and the last status output, plus the structure plea when the previous execution raised. The loop settles on the last status when it exits. |
| `Orchestrator.Answer` | main.py:94-127 | Phase 2 first synthesises from the normalised questions. If that execution raises, exactly one resynthesis follows, with " Please follow the JSON structure." appended; if that execution raises too, the exception escapes. The retry loop then starts from the status reached. |
| `Orchestrator.States` | main.py:107-127 | The loop variables before each loop attempt and after the last one. Each entry is the previous one after that attempt: a raise keeps the status, output and `count` and clears `json_str_flag`; a status replaces the status and output, adds one to `count` and sets the flag. |
| `Orchestrator.LoopEntersOnlyIfContinuing` | main.py:109 | The phase-2 loop makes an attempt only if its condition holds on entry. A first answer status other than 0 leaves the loop unentered. |
| `Orchestrator.CountIsStatusAttempts` | main.py:118-127 | After any loop attempts, `count` has grown by the number of attempts that returned a status. Raising attempts leave it unchanged, so a free retry costs no budget. |
| `Orchestrator.AnswerLoopExhausts` | main.py:107-127 | A loop entered on status 0 whose every attempt reports status 0 again settles on status 0 after exactly three attempts. |
| `Orchestrator.AtMostThreeCountedRetries` | main.py:107-127 | At most three phase-2 loop attempts return a status. |
| `Orchestrator.AfterRaisingAttempt` | main.py:111-127 | A raising loop attempt leaves the last status, its output and `count` unchanged. The next prompt repeats that output and ends with the structure plea. |
| `Orchestrator.AfterStatusAttempt` | main.py:111-127 | A loop attempt that returns a status raises `count` by exactly one. The next prompt carries exactly its output, with no plea. |
| `Orchestrator.LoopPromptsExtendQuestions` | main.py:111-113 | Every phase-2 retry prompt starts with the normalised questions. |
| `Orchestrator.AnsweringPromptsExtendQuestions` | main.py:95-115 | Every phase-2 prompt starts with the normalised questions of the last phase-1 synthesis. |
| `Orchestrator.RaisesPrefix` | main.py:118-125 | A prefix of the loop attempts has no more raising attempts than the whole, and fewer when a later last attempt raised. |
| `Orchestrator.ContinuesAt` | main.py:109 | Before every loop attempt the loop condition holds: the last status is 0 and `count` is below three. |
| `Orchestrator.LoopPrefixesAgree` | main.py:107-127 | Two phase-2 loops from the same variables that replay the same oracles agree attempt by attempt, and so on the loop variables. |
| `Orchestrator.LoopNotLonger` | main.py:107-127 | Neither of two such loops is a proper prefix of the other: the loop exits, or the raising retries run out, at the same point. |
| `Orchestrator.LoopIsDetermined` | main.py:107-127 | The phase-2 loop description is complete: its attempts and how it ends are fixed by the oracles, the questions, the start variables and the fuel. |
| `Orchestrator.ComposeAnswering` | main.py:94-127 | The repair calls followed by a loop that starts from the status the repair reached form a legal phase-2 call sequence. |
| `Orchestrator.RepairPrefixesAgree` | main.py:95-105 | Two repair prefixes for the same oracles and questions have the same length, the same calls, the same escape and, when nothing escaped, the same loop start. |
| `Orchestrator.AnsweringIsDetermined` | main.py:94-127 | The phase-2 description is complete: the calls and how answering ends are fixed by the oracles, the first call number, the normalised questions and the fuel. |
| `Orchestrator.BothPhasesFirstTry` | main.py:64-109 | When both first executions report status 1, the request makes exactly two synthesis calls and two executions, and answering settles on status 1. |
| `Handler.Conclude` | main.py:100-146 | A settled answering phase gives the resolution of its status against `result.json`. A raising repair execution gives the uncaught exception at main.py:105, and only it does. A run out of fuel, and only it, gives the undetermined reply. |
| `Resolver.Resolve` | main.py:129-146 | A document is returned exactly when `result.json` is valid, whatever the status. An exception escapes exactly when the status is not 1 and the file is invalid. A missing file gives 500: the generic failure message after a status other than 1, otherwise the read error. |
| `Handler.Analyze` | main.py:32-146 | The reply is the 400 "No questions.txt…" error exactly when the form is empty, and then no call is made. A fallback upload without a filename raises at main.py:57, before any call. Phase 1 runs on the selected question. Phase 2 runs only after a phase-1 status of exactly 1, on that synthesis's normalised questions; how answering ended is reported exactly when it ran. Otherwise the reply is the scraping-failure message, or an escaped exception. The final reply is the conclusion of how answering ended. |

## Left out

- Framework setup (app, CORS, routing), uuid generation and directory creation: the workspace is implicit in the oracles and in the staged file map.
- Byte-level file I/O and UTF-8 decoding: a file's content is a string, stored and read back verbatim. A question file or fallback file whose content is not valid UTF-8 would raise in the source, at the text reads of main.py:47-48 and 57-58. The text-mode reads at main.py:47 and 57 also translate "\r\n" and "\r" to "\n"; the model keeps the content unchanged.
- Path plumbing: filenames are workspace file names as they are. Names with separators, and file systems where names differ only by letter case, are not modelled.
- Form parsing: the input is the sequence of items that `form.items()` yields. How the framework collapses repeated field names is not modelled.
- Workspace.Lower: lower-cases ASCII letters only. For the comparison with `questions.txt` this agrees with Python's `str.lower`.
- The internals of `parse_question_with_llm`, `answer_with_data` and `run_python_code` are foreign calls. They are scripted oracles. Exceptions from the synthesis calls are not modelled (the oracles are total).
- JSON parsing: `result.json` is missing, a valid document, or invalid, each with the error text the source would report. A document `json.load` accepts but the reply cannot serialise (NaN, Infinity) counts as invalid, which is how main.py:135 and 144 treat it.
- Collaborator results: the synthesis results are assumed to carry `code`, `libraries` and `questions`, and a returned execution result `code` and `output`. A missing key raises `KeyError` in the source. Inside the `try` blocks at main.py:100-105 and 118-124 that acts like an executor raise. At main.py:95, 109, 111 and 129 it would escape, which the model does not express.
- Logging (`print`) and async scheduling.
- Orchestrator.AnswerLoop: the source loop has no bound when the executor keeps raising. The model follows `fuel` raising retries; one more ends the run with `OutOfFuel`, giving the `Undetermined(FuelExhausted)` reply.
- Handler.Analyze: when the fallback's first `saved_files` entry is a raw text value, the source opens that text as a path relative to the working directory, and the outcome depends on the file system. The model gives the `Undetermined(FallbackPath)` reply. An upload without a filename is stored as the upload object itself, and opening it raises whatever the file system holds; that is modelled, as `Uncaught(FallbackOpen)`.
- Uncaught exceptions are `Uncaught(site)` replies without further detail. The sites are the fallback open of an upload without a filename at main.py:57, a phase-1 execution raising, the repair execution at main.py:105 raising, and `json.load` on an invalid artifact at main.py:134.
