/** The HTTP endpoints: the server keeps the chain built by the last successful
    upload and answers questions with it. */
module Api {
  import opened Wrappers
  import opened Text
  import opened Retriever
  import opened Chain

  /** An uploaded file; its bytes go to a temporary file and are not modelled. */
  datatype UploadFile = UploadFile(filename: string)

  /** What an endpoint returns: a success body, or an HTTP error with its status
      code and detail message. */
  datatype Response =
    | Uploaded(message: string)
    | Answered(question: string, answer: string)
    | HttpError(status: nat, detail: string)

  /** The upload filter: the lower-cased file name ends in `.pdf`. */
  predicate IsPdfName(name: string)
  {
    EndsWith(Lower(name), ".pdf")
  }

  predicate AllPdf(files: seq<UploadFile>)
  {
    forall i :: 0 <= i < |files| ==> IsPdfName(files[i].filename)
  }

  /** The filter looks only at the last four characters, in any letter case. */
  lemma PdfNameCases(name: string)
    ensures IsPdfName(name) <==>
              |name| >= 4 && name[|name| - 4] == '.' &&
              (name[|name| - 3] == 'p' || name[|name| - 3] == 'P') &&
              (name[|name| - 2] == 'd' || name[|name| - 2] == 'D') &&
              (name[|name| - 1] == 'f' || name[|name| - 1] == 'F')
  {
    var l := Lower(name);
    if |name| >= 4 {
      var t := l[|l| - 4..];
      assert t[0] == LowerChar(name[|name| - 4]);
      assert t[1] == LowerChar(name[|name| - 3]);
      assert t[2] == LowerChar(name[|name| - 2]);
      assert t[3] == LowerChar(name[|name| - 1]);
      assert t == ".pdf" <==> t[0] == '.' && t[1] == 'p' && t[2] == 'd' && t[3] == 'f';
    }
  }

  /** The paths of the temporary files the uploads were written to, in upload order;
      `tempName(i)` is the fresh name chosen for the `i`-th upload, whatever its file
      name. */
  function TempPaths(files: seq<UploadFile>, tempName: nat -> string): (paths: seq<string>)
    ensures |paths| == |files|
    ensures forall i :: 0 <= i < |files| ==> paths[i] == tempName(i)
  {
    if files == [] then [] else TempPaths(files[..|files| - 1], tempName) + [tempName(|files| - 1)]
  }

  const UploadSuffix: string := " PDF(s) uploaded and indexed successfully"

  /** The success message of an upload of `n` files. */
  function UploadMessage(n: nat): string
  {
    Decimal(n) + UploadSuffix
  }

  /** The success message opens with the number of uploaded files, written in
      canonical decimal (no leading zero) and read back exactly, followed by the
      fixed text. */
  lemma UploadMessageCount(n: nat)
    ensures var m := UploadMessage(n);
            LeadingDigits(m) == |Decimal(n)| &&
            DecimalValue(m[..LeadingDigits(m)]) == n &&
            m[LeadingDigits(m)..] == UploadSuffix &&
            (m[0] == '0' <==> n == 0)
  {
    var d := Decimal(n);
    assert UploadSuffix[0] == ' ';
    LeadingDigitsOfConcat(d, UploadSuffix);
    var m := d + UploadSuffix;
    assert m[..|d|] == d && m[|d|..] == UploadSuffix;
    DecimalRoundTrip(n);
    DecimalCanonical(n);
  }

  /** The server and its one piece of state, the global `qa_chain`. */
  class Server {
    /** The chain built by the last successful upload; `None` until then. */
    var qaChain: Option<QaChain>

    constructor ()
      ensures qaChain == None
    {
      qaChain := None;
    }

    /** `upload_pdfs`: the files are checked in order and each accepted one is
        written to a temporary file; a new chain is built, not multimodal, from
        all of them. A rejected request or a failed build leaves the previous
        chain in place. */
    method UploadPdfs(files: seq<UploadFile>, tempName: nat -> string, build: StoreBuilder)
      returns (resp: Response)
      modifies this
      ensures files == [] ==> resp == HttpError(400, "No files uploaded") && qaChain == old(qaChain)
      ensures files != [] && !AllPdf(files) ==>
                resp == HttpError(400, "Only PDF files are allowed") && qaChain == old(qaChain)
      ensures files != [] && AllPdf(files) ==>
                match BuildQaChain(TempPaths(files, tempName), false, build)
                case Success(chain) => qaChain == Some(chain) && resp == Uploaded(UploadMessage(|files|))
                case Failure(e) => qaChain == old(qaChain) && resp == HttpError(500, e)
      ensures resp.Uploaded? ==> qaChain.Some? && resp == Uploaded(UploadMessage(|files|))
      ensures !resp.Uploaded? ==> qaChain == old(qaChain)
      ensures old(qaChain).Some? ==> qaChain.Some?
    {
      if files == [] {
        return HttpError(400, "No files uploaded");
      }
      var pdfPaths: seq<string> := [];
      for i := 0 to |files|
        invariant pdfPaths == TempPaths(files[..i], tempName)
        invariant AllPdf(files[..i])
      {
        if !IsPdfName(files[i].filename) {
          return HttpError(400, "Only PDF files are allowed");
        }
        assert files[..i + 1][..i] == files[..i];
        pdfPaths := pdfPaths + [tempName(i)];
      }
      assert files[..|files|] == files;
      var built := BuildQaChain(pdfPaths, false, build);
      match built
      case Failure(e) =>
        resp := HttpError(500, e);
      case Success(chain) =>
        qaChain := Some(chain);
        resp := Uploaded(UploadMessage(|pdfPaths|));
    }

    /** `ask_question`: refused before any upload and for a blank question;
        otherwise the stripped question is run through the chain and the answer is
        the text of the model's reply, or a failure of the retrieval or of the model
        becomes a 500 error. */
    method AskQuestion(question: string, search: Search, llm: LanguageModel) returns (resp: Response)
      ensures qaChain.None? ==> resp == HttpError(400, "Upload PDFs before asking questions")
      ensures qaChain.Some? && Strip(question) == [] ==> resp == HttpError(400, "Question cannot be empty")
      ensures qaChain.Some? && Strip(question) != [] ==>
                var q := Strip(question);
                match ContextFor(qaChain.value, q, search)
                case Failure(e) => resp == HttpError(500, e)
                case Success(context) =>
                  match llm(PromptMessages(context, q))
                  case Success(reply) => resp == Answered(q, Payload(reply))
                  case Failure(e) => resp == HttpError(500, e)
      ensures resp.Answered? ==> resp.question == Strip(question) && resp.question != []
    {
      if qaChain.None? {
        return HttpError(400, "Upload PDFs before asking questions");
      }
      var q := Strip(question);
      if q == [] {
        return HttpError(400, "Question cannot be empty");
      }
      var result := InvokeChain(qaChain.value, q, search, llm);
      match result
      case Failure(e) =>
        resp := HttpError(500, e);
      case Success(output) =>
        resp := Answered(q, Payload(output));
    }
  }
}
