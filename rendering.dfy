/**
  Rendering (credentials.service.ts, renderCredential). The subject text is
  parsed, the template is applied to the parsed subject, `id` is then
  deleted from the subject (after the text was produced), and the output
  format is dispatched; only QR_LINK returns the text, and PDF starts a
  write of it that is not awaited.
 */
module Rendering {
  import opened Wrappers

  /** The RENDER_OUTPUT variants the switch names. */
  datatype RenderOutput = QR | STRING | PDF | QR_LINK | HTML | JSON

  /** The credential of a render request: its id and its subject as JSON text. */
  datatype StoredCredential = StoredCredential(id: string, subject: string)

  datatype RenderRequest = RenderRequest(output: RenderOutput, template: string, credential: StoredCredential)

  /** A parsed JSON value, as far as rendering tells values apart. */
  datatype Json = JNull | JObject(members: map<string, string>) | JOther(text: string)

  /** JSON.parse: None when it throws. */
  type Parser = string -> Option<Json>

  /** handlebars `compile(template)(subject)`: None when it throws. */
  type TemplateEngine = (string, Json) -> Option<string>

  /**
    A request to print `html` to the PDF file named `fileName`, as the name
    is written before `path.join` resolves it against the working directory.
   */
  datatype PdfWrite = PdfWrite(html: string, fileName: string)

  /** What a render call gives back, and the PDF write it starts. */
  datatype Rendered = Rendered(returned: Option<string>, pdfWrite: Option<PdfWrite>)

  datatype RenderError = ParseFailed | TemplateFailed | DeleteFromNull

  /** The file name the PDF arm writes to. */
  function PdfFileName(id: string): (f: string)
    ensures |f| == |id| + 11
    ensures f[..7] == "render-" && f[|f| - 4..] == ".pdf" && f[7..|f| - 4] == id
  {
    "render-" + id + ".pdf"
  }

  /** The subject with its `id` member removed (what `delete subject.id` leaves). */
  function RemoveId(j: Json): (r: Json)
    ensures r.JObject? ==> "id" !in r.members
    ensures j.JObject? ==> r == JObject(j.members - {"id"})
    ensures !j.JObject? ==> r == j
  {
    match j
    case JObject(m) => JObject(m - {"id"})
    case _ => j
  }

  /** One call of renderCredential. */
  function Render(req: RenderRequest, parse: Parser, apply: TemplateEngine): (r: Result<Rendered, RenderError>)
    ensures parse(req.credential.subject).None? ==> r == Failure(ParseFailed)
    ensures r.Success? <==>
      && parse(req.credential.subject).Some?
      && apply(req.template, parse(req.credential.subject).value).Some?
      && parse(req.credential.subject).value != JNull
    ensures r.Success? ==> (r.value.returned.Some? <==> req.output == QR_LINK)
    ensures r.Success? ==> (r.value.pdfWrite.Some? <==> req.output == PDF)
    // the text is the template applied to the subject as parsed, id included
    ensures r.Success? && r.value.returned.Some? ==>
      Some(r.value.returned.value) == apply(req.template, parse(req.credential.subject).value)
    ensures r.Success? && r.value.pdfWrite.Some? ==>
      && Some(r.value.pdfWrite.value.html) == apply(req.template, parse(req.credential.subject).value)
      && r.value.pdfWrite.value.fileName == PdfFileName(req.credential.id)
  {
    match parse(req.credential.subject)
    case None => Failure(ParseFailed)
    case Some(subject) =>
      match apply(req.template, subject)
      case None => Failure(TemplateFailed)
      case Some(data) =>
        if subject == JNull then Failure(DeleteFromNull)
        else
          match req.output
          case QR => Success(Rendered(None, None))
          case STRING => Success(Rendered(None, None))
          case PDF => Success(Rendered(None, Some(PdfWrite(data, PdfFileName(req.credential.id)))))
          case QR_LINK => Success(Rendered(Some(data), None))
          case HTML => Success(Rendered(None, None))
          case JSON => Success(Rendered(None, None))
  }

  /** QR, STRING, HTML and JSON produce nothing at all, whatever the template yields. */
  lemma SilentFormatsProduceNothing(req: RenderRequest, parse: Parser, apply: TemplateEngine)
    requires req.output in {QR, STRING, HTML, JSON}
    requires Render(req, parse, apply).Success?
    ensures Render(req, parse, apply).value == Rendered(None, None)
  {
  }

  /**
    The subject's id reaches the template: when the template's text depends
    on it, the text returned is not the text of the subject without id.
   */
  lemma IdRemovedOnlyAfterCompiling(req: RenderRequest, parse: Parser, apply: TemplateEngine)
    requires req.output == QR_LINK
    requires parse(req.credential.subject).Some?
    requires apply(req.template, parse(req.credential.subject).value).Some?
    requires apply(req.template, RemoveId(parse(req.credential.subject).value)) !=
             apply(req.template, parse(req.credential.subject).value)
    ensures Render(req, parse, apply).Success?
    ensures Render(req, parse, apply).value.returned != apply(req.template, RemoveId(parse(req.credential.subject).value))
  {
  }

  /** A JSON null subject fails at the delete, after the template ran successfully. */
  lemma NullSubjectFails(req: RenderRequest, parse: Parser, apply: TemplateEngine)
    requires parse(req.credential.subject) == Some(JNull)
    requires apply(req.template, JNull).Some?
    ensures Render(req, parse, apply) == Failure(DeleteFromNull)
  {
  }
}
