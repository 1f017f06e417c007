/**
  The two request handlers of the PDF text extraction service:

  - `ExtractText` models `POST /extract-text`: a multipart upload whose
    declared content type must be `application/pdf` and whose body must not
    exceed `MAX_FILE_SIZE` bytes;
  - `ExtractTextBase64` models `POST /extract-text-base64`: a JSON body whose
    `contentBytes` field is base64-decoded before the size check.

  The foreign collaborators (the PDF text extractor, the base64 decoder, the
  whitespace table of `str.split()`, and the text of a framework
  `HTTPException` once converted with `str`) are the fields of an `Env`.
  A raised Python exception is a `Failure`.
 */
module Handlers {
  import opened Normalization

  newtype byte = x: int | 0 <= x < 256

  type Bytes = seq<byte>

  datatype Option<T> = None | Some(value: T)

  datatype Result<T, E> = Success(value: T) | Failure(error: E)

  /** Largest accepted payload: 10 MiB. */
  const MAX_FILE_SIZE: nat := 10 * 1024 * 1024

  const PDF_CONTENT_TYPE: string := "application/pdf"

  const INVALID_TYPE_DETAIL: string := "Type de fichier invalide. Seuls les PDF sont acceptés."

  const TOO_LARGE_DETAIL: string := "Fichier trop volumineux. Maximum autorisé : 10 Mo."

  const EXTRACTION_ERROR_PREFIX: string := "Erreur lors de l'extraction : "

  /** A multipart upload: the declared content type (absent when the part has
      no `Content-Type` header) and the bytes of the body. */
  datatype Upload = Upload(contentType: Option<string>, body: Bytes)

  /** The JSON body of the base64 endpoint: the encoded document and an
      optional label, which defaults to `None`. */
  datatype Base64Payload = Base64Payload(contentBytes: string, name: Option<string>)

  /** A successful JSON response: `{"text": ...}` for an upload,
      `{"filename": ..., "text": ...}` for a base64 payload. */
  datatype Reply =
    | TextReply(text: string)
    | NamedTextReply(filename: Option<string>, text: string)

  /** An `HTTPException`: the response status code and its `detail`. */
  datatype HttpError = HttpError(status: nat, detail: string)

  /** What can escape the body of a handler's `try`: an `HTTPException` raised
      by the handler itself, or an exception raised by a library, carrying the
      text `str(e)` gives for it. */
  datatype Exception =
    | HttpException(error: HttpError)
    | LibraryException(message: string)

  /** The foreign collaborators of the handlers. */
  datatype Env = Env(
    extract: Bytes -> Result<string, string>,         // pdfminer's extract_text_to_fp with default LAParams
    b64decode: string -> Result<Bytes, string>,       // base64.b64decode
    isSpace: char -> bool,                            // the whitespace table of str.split()
    httpExceptionText: HttpError -> string)           // str(e) for an HTTPException e

  /** `str(e)` for any exception that reaches an `except Exception` clause. */
  function ExceptionText(e: Exception, env: Env): string {
    match e
    case HttpException(err) => env.httpExceptionText(err)
    case LibraryException(m) => m
  }

  /** The `except Exception as e` clause of both handlers: whatever was raised,
      the response is a 500 whose detail is the fixed prefix and `str(e)`. */
  function Catch(e: Exception, env: Env): (err: HttpError)
    ensures err.status == 500
    ensures EXTRACTION_ERROR_PREFIX <= err.detail
    ensures err.detail[|EXTRACTION_ERROR_PREFIX|..] == ExceptionText(e, env)
  {
    HttpError(500, EXTRACTION_ERROR_PREFIX + ExceptionText(e, env))
  }

  /** Runs the extractor on a buffer and normalises its text: the part of
      both `try` blocks that follows the gates. */
  function ExtractAndClean(contents: Bytes, env: Env): (r: Result<string, Exception>)
    ensures r.Success? <==> env.extract(contents).Success?
    ensures r.Success? ==> IsNormal(r.value, env.isSpace)
    ensures r.Success? ==> r.value == Normalize(env.extract(contents).value, env.isSpace)
    ensures r.Failure? ==> r.error == LibraryException(env.extract(contents).error)
  {
    match env.extract(contents)
    case Failure(m) => Failure(LibraryException(m))
    case Success(text) => Success(Normalize(text, env.isSpace))
  }

  // ---------------------------------------------------------------------
  // POST /extract-text

  /** The upload handler: content-type gate, then size gate, then the `try`
      around extraction and normalisation. */
  function ExtractText(file: Upload, env: Env): (r: Result<Reply, HttpError>)
    // the three failure kinds, each exactly when its cause holds
    ensures (r.Failure? && r.error.status == 400) <==> file.contentType != Some(PDF_CONTENT_TYPE)
    ensures (r.Failure? && r.error.status == 413)
        <==> file.contentType == Some(PDF_CONTENT_TYPE) && |file.body| > MAX_FILE_SIZE
    ensures (r.Failure? && r.error.status == 500)
        <==> (file.contentType == Some(PDF_CONTENT_TYPE) && |file.body| <= MAX_FILE_SIZE
              && env.extract(file.body).Failure?)
    ensures r.Failure? && r.error.status == 500 ==>
              r.error.detail == EXTRACTION_ERROR_PREFIX + env.extract(file.body).error
    // success exactly when both gates pass and the extractor succeeds
    ensures r.Success? <==> (file.contentType == Some(PDF_CONTENT_TYPE) && |file.body| <= MAX_FILE_SIZE
                             && env.extract(file.body).Success?)
    // success carries the normalised text of the extractor, and only that
    ensures r.Success? ==> r.value.TextReply?
    ensures r.Success? ==> env.extract(file.body).Success?
                           && r.value.text == Normalize(env.extract(file.body).value, env.isSpace)
  {
    if file.contentType != Some(PDF_CONTENT_TYPE) then
      Failure(HttpError(400, INVALID_TYPE_DETAIL))
    else if |file.body| > MAX_FILE_SIZE then
      Failure(HttpError(413, TOO_LARGE_DETAIL))
    else
      match ExtractAndClean(file.body, env)
      case Failure(e) => Failure(Catch(e, env))
      case Success(cleaned) => Success(TextReply(cleaned))
  }

  /** The content type is checked before anything else: for any wrong or
      missing content type the response is the same 400, and depends neither
      on the body nor on any collaborator. */
  lemma ContentTypeGateFirst(f1: Upload, f2: Upload, env1: Env, env2: Env)
    requires f1.contentType != Some(PDF_CONTENT_TYPE) && f2.contentType != Some(PDF_CONTENT_TYPE)
    ensures ExtractText(f1, env1) == ExtractText(f2, env2) == Failure(HttpError(400, INVALID_TYPE_DETAIL))
  {
  }

  /** The size gate comes before the extractor: an oversized PDF upload is a
      413 whatever the extractor would have done. */
  lemma SizeGateBeforeExtractor(f: Upload, env1: Env, env2: Env)
    requires f.contentType == Some(PDF_CONTENT_TYPE) && |f.body| > MAX_FILE_SIZE
    ensures ExtractText(f, env1) == ExtractText(f, env2) == Failure(HttpError(413, TOO_LARGE_DETAIL))
  {
  }

  /** The limit is inclusive: a PDF upload of exactly `MAX_FILE_SIZE` bytes,
      or of none at all, reaches the extractor. */
  lemma SizeLimitInclusive(f: Upload, env: Env)
    requires f.contentType == Some(PDF_CONTENT_TYPE) && |f.body| <= MAX_FILE_SIZE
    ensures ExtractText(f, env).Success? == env.extract(f.body).Success?
    ensures ExtractText(f, env).Failure? ==> ExtractText(f, env).error.status == 500
  {
  }

  // ---------------------------------------------------------------------
  // POST /extract-text-base64, as written

  /** The `try` block of the base64 handler: decode, size gate, extraction.
      The size gate raises its `HTTPException` inside the `try`. */
  function TryBase64(p: Base64Payload, env: Env): (r: Result<Reply, Exception>)
    ensures r.Success? ==> r.value.NamedTextReply? && r.value.filename == p.name
  {
    match env.b64decode(p.contentBytes)
    case Failure(m) => Failure(LibraryException(m))
    case Success(contents) =>
      if |contents| > MAX_FILE_SIZE then
        Failure(HttpException(HttpError(413, TOO_LARGE_DETAIL)))
      else
        match ExtractAndClean(contents, env)
        case Failure(e) => Failure(e)
        case Success(cleaned) => Success(NamedTextReply(p.name, cleaned))
  }

  /** The base64 handler as written: every exception raised in the `try`,
      including its own 413, is turned into a 500 by `except Exception`. */
  function ExtractTextBase64(p: Base64Payload, env: Env): (r: Result<Reply, HttpError>)
    ensures r.Failure? ==> r.error.status == 500
    ensures r.Failure? ==> EXTRACTION_ERROR_PREFIX <= r.error.detail
    ensures r.Success? <==> (env.b64decode(p.contentBytes).Success?
                             && |env.b64decode(p.contentBytes).value| <= MAX_FILE_SIZE
                             && env.extract(env.b64decode(p.contentBytes).value).Success?)
    ensures r.Success? ==> r.value.NamedTextReply? && r.value.filename == p.name
    ensures r.Success? ==> IsNormal(r.value.text, env.isSpace)
    ensures r.Success? ==> r.value.text == Normalize(env.extract(env.b64decode(p.contentBytes).value).value, env.isSpace)
    // an extractor failure on an accepted payload carries the extractor's message
    ensures env.b64decode(p.contentBytes).Success?
            && |env.b64decode(p.contentBytes).value| <= MAX_FILE_SIZE
            && env.extract(env.b64decode(p.contentBytes).value).Failure?
            ==> r == Failure(HttpError(500, EXTRACTION_ERROR_PREFIX
                                            + env.extract(env.b64decode(p.contentBytes).value).error))
  {
    match TryBase64(p, env)
    case Failure(e) => Failure(Catch(e, env))
    case Success(reply) => Success(reply)
  }

  /** An undecodable payload is a 500 carrying the decoder's message, and the
      extractor plays no part. */
  lemma DecodeFailureIs500(p: Base64Payload, env1: Env, env2: Env)
    requires env1.b64decode == env2.b64decode && env1.httpExceptionText == env2.httpExceptionText
    requires env1.b64decode(p.contentBytes).Failure?
    ensures ExtractTextBase64(p, env1) == ExtractTextBase64(p, env2)
              == Failure(HttpError(500, EXTRACTION_ERROR_PREFIX + env1.b64decode(p.contentBytes).error))
  {
  }

  /** The 413 raised inside the `try` is caught by `except Exception`: an
      oversized decoded payload is answered with a 500 whose detail is the
      prefix and the text of the 413 exception, never with a 413. */
  lemma OversizedBase64Is500(p: Base64Payload, env: Env)
    requires env.b64decode(p.contentBytes).Success?
    requires |env.b64decode(p.contentBytes).value| > MAX_FILE_SIZE
    ensures ExtractTextBase64(p, env)
              == Failure(HttpError(500, EXTRACTION_ERROR_PREFIX + env.httpExceptionText(HttpError(413, TOO_LARGE_DETAIL))))
  {
  }

  // ---------------------------------------------------------------------
  // POST /extract-text-base64, with the size gate outside the `except` clause

  /** The base64 handler with the evidently intended behaviour: the
      `HTTPException` raised by the size gate is re-raised unchanged, and only
      other exceptions become a 500. */
  function ExtractTextBase64Intended(p: Base64Payload, env: Env): (r: Result<Reply, HttpError>)
    ensures (r.Failure? && r.error.status == 413)
        <==> env.b64decode(p.contentBytes).Success? && |env.b64decode(p.contentBytes).value| > MAX_FILE_SIZE
    ensures r.Failure? ==> r.error.status in {413, 500}
    ensures r.Failure? && r.error.status == 413 ==> r.error.detail == TOO_LARGE_DETAIL
    // apart from the 413, nothing differs from the handler as written
    ensures r.Success? <==> ExtractTextBase64(p, env).Success?
    ensures r.Success? ==> r == ExtractTextBase64(p, env)
    ensures r.Failure? && r.error.status == 500 ==> r == ExtractTextBase64(p, env)
  {
    match TryBase64(p, env)
    case Failure(HttpException(err)) => Failure(err)
    case Failure(e) => Failure(Catch(e, env))
    case Success(reply) => Success(reply)
  }

  /** With the intended base64 handler, the two endpoints agree on a PDF whose
      base64 text decodes to the uploaded bytes: same outcome, same status
      code on failure, same text on success. */
  lemma EndpointsAgreeWhenIntended(f: Upload, p: Base64Payload, env: Env)
    requires f.contentType == Some(PDF_CONTENT_TYPE)
    requires env.b64decode(p.contentBytes) == Success(f.body)
    ensures ExtractText(f, env).Success? == ExtractTextBase64Intended(p, env).Success?
    ensures ExtractText(f, env).Failure? ==>
              ExtractText(f, env).error == ExtractTextBase64Intended(p, env).error
    ensures ExtractText(f, env).Success? ==>
              ExtractText(f, env).value.text == ExtractTextBase64Intended(p, env).value.text
  {
  }

  /** As written, the endpoints disagree exactly on oversized payloads: the
      upload endpoint answers 413 where the base64 endpoint answers 500. */
  lemma EndpointsDisagreeOnSize(f: Upload, p: Base64Payload, env: Env)
    requires f.contentType == Some(PDF_CONTENT_TYPE)
    requires env.b64decode(p.contentBytes) == Success(f.body)
    ensures ExtractText(f, env).Success? == ExtractTextBase64(p, env).Success?
    ensures ExtractText(f, env).Success? ==>
              ExtractText(f, env).value.text == ExtractTextBase64(p, env).value.text
    ensures ExtractText(f, env).Failure? ==>
              (ExtractText(f, env).error.status == 413 <==> |f.body| > MAX_FILE_SIZE)
              && ExtractTextBase64(p, env).error.status == 500
  {
  }
}
