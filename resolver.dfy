/**
 * The replies of the handler and the resolution of the final outcome
 * against the result artifact `result.json` (main.py:129-146).
 *
 * The status the answering phase ends with only selects the branch: the
 * artifact decides whether a document is returned.
 */
module Resolver {

  /** A parsed JSON document, as the reply re-serialises it; parsing and serialisation are not modelled. */
  datatype Doc = Doc(json: string)

  /**
   * `result.json` in the workspace when the handler reads it: no file at that
   * path (with the text of the error that opening it raises), a valid JSON
   * document, or a file that exists but cannot be opened, decoded or parsed
   * as JSON, or whose document the reply cannot serialise, such as one with
   * NaN or Infinity, which `json.load` accepts and `JSONResponse` refuses
   * (with the text of that error).
   */
  datatype ResultFile = Missing(openError: string) | Valid(doc: Doc) | Invalid(parseError: string)

  /** The body of a JSON reply. */
  datatype Payload = Error(error: string) | Message(message: string) | Document(doc: Doc)

  /** Where an exception escapes the handler. */
  datatype Site =
    | AcquisitionRun      // run_python_code raising in phase 1 (main.py:73, 87)
    | AnswerRerun         // the resynthesised first answer execution raising (main.py:105)
    | FallbackOpen        // aiofiles.open given an upload without a filename, which is no path (main.py:57)
    | FallbackParse       // reading an existing but unreadable or invalid result.json after failure (main.py:133-135)

  /** Cases in which the model does not determine the reply. */
  datatype Limit =
    | FuelExhausted       // the answering loop raised more often than the model follows
    | FallbackPath        // the fallback opens a raw text value as a path relative to the working directory

  datatype Reply =
    | Response(code: int, payload: Payload)   // a JSONResponse with this HTTP status
    | Uncaught(site: Site)                    // an exception escapes `analyze`
    | Undetermined(limit: Limit)

  const NoQuestionError := "No questions.txt file found and no fallback file available."
  const ScrapeFailedMessage := "Error occurred while scraping after retries."
  const NoResultMessage := "Failed to generate valid result after retries."
  const ResultErrorPrefix := "Error occurred while processing result.json: "

  /**
   * The reply for the final status of answering and the artifact: after a
   * status other than 1 the artifact is returned if it exists; after status 1
   * it is returned if it can be read and parsed, and otherwise the read or
   * parse error is reported with HTTP 500.
   */
  function Resolve(status: int, file: ResultFile): (r: Reply)
    ensures (r.Response? && r.payload.Document?) <==> file.Valid?
    ensures file.Valid? ==> r == Response(200, Document(file.doc))
    ensures r.Uncaught? <==> status != 1 && file.Invalid?
    ensures r.Uncaught? ==> r.site == FallbackParse
    ensures file.Missing? ==> r.Response? && r.code == 500 && r.payload.Message?
    ensures status == 1 && !file.Valid? ==>
      r.Response? && r.code == 500 && r.payload.Message? &&
      ResultErrorPrefix <= r.payload.message &&
      r.payload.message[|ResultErrorPrefix|..] == (if file.Missing? then file.openError else file.parseError)
    ensures status != 1 && file.Missing? ==> r == Response(500, Message(NoResultMessage))
  {
    if status != 1 then
      match file
      case Valid(doc) => Response(200, Document(doc))
      case Missing(_) => Response(500, Message(NoResultMessage))
      case Invalid(_) => Uncaught(FallbackParse)
    else
      match file
      case Valid(doc) => Response(200, Document(doc))
      case Missing(e) => Response(500, Message(ResultErrorPrefix + e))
      case Invalid(e) => Response(500, Message(ResultErrorPrefix + e))
  }
}
