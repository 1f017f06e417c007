# PDF text extractor: request pipeline

A Dafny model of the request pipeline of a small FastAPI service that turns a
PDF into plain text. The service has two extraction endpoints:

- `POST /extract-text` takes a multipart upload. It rejects a declared content
  type other than `application/pdf` with 400. It then reads the body and
  rejects more than `MAX_FILE_SIZE` = 10 × 1024 × 1024 = 10 485 760 bytes with 413.
  Finally it runs pdfminer's extractor, answering `{"text": ...}` on success
  and 500 on any extractor exception.
- `POST /extract-text-base64` takes a JSON body `{contentBytes, name}`. It
  base64-decodes the content, checks the decoded size, runs the extractor and
  answers `{"filename": name, "text": ...}`. All of this sits inside one
  `try`, whose `except Exception` turns every exception into a 500.

Both endpoints clean the extracted text with `' '.join(text.split())`.

The project has two modules:

- `Normalization` (`normalization.dfy`) models Python's no-argument
  `str.split()` as `Split`, `' '.join` as `Join`, and their composition as
  `Normalize`. The whitespace table of `str.split()` is a parameter
  `ws: char -> bool`. The proved properties are:
  - the output is trimmed;
  - its only whitespace is single ASCII spaces;
  - it is empty exactly when the input is all whitespace;
  - it keeps the words and the non-whitespace characters in order;
  - normalisation is idempotent, and its fixed points are exactly the normal texts.
- `Handlers` (`handlers.dfy`) models the two handlers as functions from a
  request to `Result<Reply, HttpError>`. The foreign collaborators are the
  fields of an `Env` record:
  - the PDF extractor;
  - the base64 decoder;
  - the whitespace table;
  - the text `str()` gives for an `HTTPException`.

  Python exceptions are `Failure` values. The `try` blocks return
  `Result<_, Exception>`, and `Catch` models `except Exception`.

Three facts about the code that shape the model:

- The upload endpoint answers 413 for an oversized body, while the base64
  endpoint answers 500 (see Findings).
- An empty body is not rejected; it reaches the extractor
  (`SizeLimitInclusive`).
- `str.split()` uses Python's Unicode whitespace table, which is larger than
  `[ \t\n\r\f\v]`, so the table is a parameter.

## Model

| member | source | states |
|---|---|---|
| Normalization.TokenEnd | main.py:49 | the length of the maximal run of non-whitespace at the head of the text: no whitespace before it, whitespace (or the end) at it |
| Normalization.Split | main.py:49 | `text.split()` yields only non-empty, whitespace-free pieces, and yields nothing exactly when the text is all whitespace (or empty) |
| Normalization.JoinLayout | main.py:49 | `' '.join(words)` is empty for no words; otherwise it starts with the first word and is as long as the words together plus one space between each pair of neighbours |
| Normalization.JoinPrepend | main.py:49 | joining a word in front of one or more words puts exactly one space between it and the join of the rest |
| Normalization.Normalize | main.py:49 | the cleaned text is trimmed, contains no whitespace except single ASCII spaces (never two whitespace characters in a row), and is empty exactly when the extracted text is all whitespace |
| Normalization.PrependWordIsNormal | main.py:49 | a word, one space, and a non-empty normal text form a normal text |
| Normalization.JoinIsNormal | main.py:49 | `' '.join` of whitespace-free non-empty pieces is a normal text, empty only for no pieces |
| Normalization.SplitSkipsWs | main.py:49 | a leading whitespace character does not change `split()` |
| Normalization.TokenEndOfWord | main.py:49 | the head run of a word followed by whitespace or by nothing is the whole word |
| Normalization.SplitTakesWord | main.py:49 | `split()` cuts a word followed by whitespace off as one piece |
| Normalization.SplitJoin | main.py:49 | round trip: `(' '.join(words)).split() == words` for whitespace-free non-empty words, when `' '` is whitespace |
| Normalization.NormalIsJoinOfSplit | main.py:49 | a normal text is rebuilt exactly by `' '.join(t.split())` |
| Normalization.NormalizeFixpoints | main.py:49 | normalisation leaves a text unchanged if and only if the text is normal |
| Normalization.NormalizeIdempotent | main.py:70 | normalising a cleaned text again changes nothing |
| Normalization.NormalizeKeepsWords | main.py:49 | the cleaned text splits into exactly the words of the extracted text |
| Normalization.NonWsIsConcatOfSplit | main.py:49 | the non-whitespace characters of a text are the concatenation of its `split()` pieces |
| Normalization.NormalizeKeepsNonWs | main.py:49 | cleaning keeps every non-whitespace character in its original order and adds none |
| Normalization.SplitSkipsGap | main.py:49 | any run of whitespace at the head is ignored by `split()` |
| Normalization.NormalizeCollapsesGap | main.py:49 | a whitespace run of any length and kind between a word and more text becomes exactly one space |
| Normalization.NormalizeWord | main.py:49 | a single whitespace-free word is cleaned to itself |
| Normalization.NormalizeOneGap | main.py:49 | one whitespace gap of any length between two words becomes one space |
| Normalization.NormalizeTwoGaps | main.py:49 | a text made of three words separated by two whitespace gaps is cleaned to the three words separated by single spaces |
| Normalization.NormalizeExample | main.py:49 | `"Hello\n\nWorld   !"` normalises to `"Hello World !"` for any whitespace table in which space and line feed are whitespace and the letters and `!` are not |
| Handlers.Catch | main.py:52-53 | `except Exception as e` answers status 500 with detail `"Erreur lors de l'extraction : "` followed by `str(e)` |
| Handlers.ExtractAndClean | main.py:44-50 | the extraction step succeeds exactly when the extractor does, yields its text normalised (hence normal), and turns an extractor failure into a library exception carrying its message |
| Handlers.ExtractText | main.py:31-53 | 400 exactly for a content type other than `application/pdf`; 413 exactly for a PDF over 10 485 760 bytes; 500 with the prefixed extractor message exactly when the extractor fails on an accepted payload; success exactly when both gates pass and the extractor succeeds, with `{"text": Normalize(extracted)}` |
| Handlers.ContentTypeGateFirst | main.py:36-39 | every wrong or missing content type gets the same 400 with the same detail, whatever the body, the extractor and the environment |
| Handlers.SizeGateBeforeExtractor | main.py:41-47 | an oversized PDF upload is a 413 whatever the extractor would do |
| Handlers.SizeLimitInclusive | main.py:41-42 | a PDF upload of at most 10 485 760 bytes (including exactly that many, or none) reaches the extractor: success exactly when the extractor succeeds, else 500 |
| Handlers.TryBase64 | main.py:60-72 | when the `try` block of the base64 handler completes, it answers a named reply that echoes `payload.name` |
| Handlers.ExtractTextBase64 | main.py:55-75 | every failure is a 500 with the extraction-error prefix; success exactly when decoding succeeds, the decoded size is within the limit and the extractor succeeds; a success echoes `name` and carries the normalised text; an extractor failure on a decoded payload within the limit is a 500 whose detail is the prefix followed by the extractor's message |
| Handlers.DecodeFailureIs500 | main.py:60-75 | an undecodable payload is a 500 carrying the decoder's message, whatever the extractor does |
| Handlers.OversizedBase64Is500 | main.py:63-75 | an oversized decoded payload is a 500 whose detail is the prefix and the text of the caught 413 exception, never a 413 |
| Handlers.ExtractTextBase64Intended | main.py:55-75 | with the 413 re-raised, the answer is 413 with the size-limit detail exactly for an oversized decoded payload; every success and every 500 is the same response the handler as written gives |
| Handlers.EndpointsAgreeWhenIntended | main.py:31-75 | for a PDF upload and a base64 payload that decodes to the same bytes, the upload handler and the intended base64 handler give the same outcome, the same error and the same text |
| Handlers.EndpointsDisagreeOnSize | main.py:31-75 | as written, the two endpoints agree on success and text for the same bytes, but where the upload endpoint answers 413 the base64 endpoint answers 500 |

## Findings

| source | as written | input that shows it | evidently intended | confidence | as-written member | corrected member |
|---|---|---|---|---|---|---|
| main.py:60-75 | the 413 `HTTPException` for an oversized decoded payload is raised inside the `try` and caught by `except Exception`, so the client gets a 500 whose detail wraps the 413 | any valid base64 text that decodes to 10 485 761 bytes | a 413, as the upload endpoint answers for the same bytes | not executed | Handlers.OversizedBase64Is500 | Handlers.ExtractTextBase64Intended |

## Left out

- FastAPI application setup, route decorators, `JSONResponse` and the root greeting endpoint (main.py:13-29): framework plumbing.
- Request validation by pydantic (`PDFPayload`, e.g. a 422 for a JSON body without `contentBytes`): done by the framework before the handler runs. The optional `name` is an `Option<string>`.
- `await file.read()`: asynchronous I/O. The body is a field of `Upload`, used only after the content-type gate.
- pdfminer's `extract_text_to_fp` with `LAParams()` and the `StringIO`/`BytesIO` buffers: a foreign parser. It is the function `Env.extract`, giving either the text or the message of the exception it raised.
- `base64.b64decode`: a standard-library call. It is the function `Env.b64decode`, giving either the bytes or the message of the exception it raised.
- The exact text `str(e)` gives for an `HTTPException`: framework formatting. It is the function `Env.httpExceptionText`.
- Python's Unicode whitespace table: a parameter. `SplitJoin`, `NormalizeKeepsWords` and `NormalizeKeepsNonWs` require only that `' '` is whitespace, which holds for Python.
- Concurrency between requests: each handler is a function of its own request only.
