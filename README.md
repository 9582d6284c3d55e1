# aeolic in Dafny

A model of the core of **aeolic**, a small Go client for a chat service's web
API. The model covers:

- **`call`**. It builds one HTTP request, attaches the merged header sets with
  `Header.Add`, and hands the request to the transport exactly once. It then
  sorts the outcome into one of five results:
  - success;
  - the transport's own error;
  - an `APIError` carrying the HTTP status;
  - a JSON decode error;
  - an in-band `APIError`: status 400, "Bad Request", with the reply's `error` field.
- **`mergeHeaders`**: a last-writer-wins fold over header maps.
- **`setDefaultHeaders`**: the bearer-token and JSON content-type headers.
- **`APIError`**: its two text forms, and the `{ok, error}` reply shape.
- **`MockHTTPClient`**: the in-memory transport. It counts every call, records
  the request given to `Do`, and answers with a canned response or error.
- **Two revisions of template handling**. They cannot coexist in one package,
  so they are two modules.
  - `TextTemplates` (aeolic.go): `text/template`. Templates are keyed by their
    full joined path. The module also has `New` and the `SendMessage` stub.
  - `HtmlTemplates` (parse.go): `html/template`. Values are HTML-escaped, and
    templates are keyed by `strings.TrimRight(name, suffix)`.
  - Both share:
    - the lookup;
    - strict rendering (`missingkey=error`);
    - the error texts: on an execution failure the bytes are nil, and the error
      is the Go error, then " \n ", then the template source;
    - the directory loader, which stops at the first failing read and returns
      the map built so far.

## Modules

| module | file | contents |
|---|---|---|
| `Wrappers` | wrappers.dfy | `Option`, `Result` |
| `Errors` | errors.dfy | `APIError` (`Error`, `Unwrap`), `%d` formatting and its inverse, `SlackErrorResp` |
| `Net` | net.dfy | responses, requests, `http.StatusText`, `http.NewRequest`, `CanonicalMIMEHeaderKey`, `Header.Add`/`Get` |
| `Mocks` | mocks.dfy | class `MockHTTPClient` with `Do`, `Get`, `Post` |
| `Http` | http.dfy | `MergeHeaders` (loop), `DefaultHeaders`, `AttachHeaders` (loop), `Classify`, `Call` |
| `Templates` | templates.dfy | the template language: `Compile`, `Print`, `Execute`, `ExecuteInto` (loop), `Outcome`, `Run` |
| `Strs` | strs.dfy | `strings.HasSuffix`, `TrimRight`, `TrimSuffix` |
| `Paths` | paths.dfy | `filepath.Clean` and `filepath.Join`, on path components |
| `Registry` | registry.dfy | the loader loop `withTemplates` both revisions share, as a specification function, plus an independent description of its result |
| `TextTemplates` | texttemplates.dfy | aeolic.go: `Parse`, `WithTemplates` (loop), `New`, `SendMessage` |
| `HtmlTemplates` | htmltemplates.dfy | parse.go: the HTML escaper, `Parse`, `WithTemplates` (loop), and the corrected `WithTemplatesFixed` |

### Modelling choices

- **The transport.** Go's `httpClient` interface has one implementation in the
  repository, `MockHTTPClient`. `Call` takes that class.
- **JSON decoding.** The decoding of a body is a function parameter `decode`.
  It returns either the decoder's error or a `SlackErrorResp`.
  `SlackErrorRespOf` states Go's zero values for absent fields.
- **The file system.** It is a function parameter `read`, from path to
  contents or error. `os.ReadDir` is its result: the entry names or an error.
- **Map iteration order.** Go's order is not fixed. The loops pick keys with
  `:|`, so every order is covered.
- **Bytes.** A `[]byte` result is `Option<string>`, where `None` is Go's nil
  slice. `parse` returns `[]byte{}` on a lookup or compile error and `nil` on an
  execution error. On success it returns `buf.Bytes()`, which is nil when the
  rendering wrote nothing.
- **The template language.** Templates are restricted to literal text and field
  references `{{ .key }}` over a `map[string]string`:
  - `Compile` rejects an unclosed `{{` and any other action.
  - `Print` is its inverse on well-formed segment lists.
  - `Execute` implements `missingkey=error`.
  - The `html/template` revision escapes each value with the text-context
    escaper: `"` `&` `'` `+` `<` `>` become entities, NUL becomes U+FFFD.

## Model

| member | source | states |
|---|---|---|
| Http.DefaultHeaders | http.go:67-72 | The defaults are exactly "Authorization" and "Content-Type". The API key reads back from the bearer token after "Bearer ", and the content type is "application/json". |
| Http.MergeHeaders | http.go:56-64 | The loop over the sets and their keys, in any key order, returns the last-writer-wins merge `Merged`. With no sets it returns the empty map. |
| Http.MergedKeys | http.go:57-63 | A key is in the merge exactly when some input set has it. |
| Http.MergedLastWriterWins | http.go:57-63 | The merged value of a key is its value in the last set that has it. |
| Http.DefaultsUnderOverrides | http.go:67-72 | The defaults, merged under a per-call set, have exactly the keys "Authorization" and "Content-Type" plus the set's keys. "Bearer " + apiKey and "application/json" survive unless the set overrides them. |
| Http.AttachHeaders | http.go:18-21 | Adding every merged pair with `Header.Add`, in any order, gives a header whose keys are exactly the canonical forms of the merged keys. Under each canonical form, every value occurs exactly as many times as merged keys of that form carry it. Method, URL and body are unchanged. |
| Http.AttachedHasValue | http.go:18-21 | Every merged value is found under its key's canonical form. |
| Http.AddKeepsAttached | http.go:19-20 | One `Header.Add` of a new pair keeps the attachment invariant for the grown map. |
| Http.GetAttached | http.go:18-21 | `Header.Get` of a merged key returns its merged value, when no other merged key has the same canonical form. |
| Http.Classify | http.go:22-52 | The response is passed through. A transport error is returned unchanged. The result is a success exactly when there is no transport error, the status is at most 399, and the body is absent or decodes with `ok` true. Any APIError built from the status has a code of at least 400. |
| Http.ClassifyStatusError | http.go:27-32 | A status above 399 gives `APIError{status, StatusText(status), "", ""}`, whatever the body and the decoder. |
| Http.ClassifyNoBody | http.go:34-36 | A status of at most 399 with no body is a success, whatever the decoder. |
| Http.ClassifyDecodeFailure | http.go:38-41 | A body that fails to decode gives the decoder's error. |
| Http.ClassifyInBandFailure | http.go:43-52 | A reply with `ok: false` and any status up to 399 gives `APIError{400, "Bad Request", error field, context URL}`. |
| Http.ClassifyMissingOk | http.go:43-52 | A reply decoded without an `ok` field is an APIError with status 400. |
| Http.InBandFailureText | http.go:47-52 | The in-band error for "invalid_blocks" reads "Bad Request [400]: invalid_blocks". |
| Http.Call | http.go:13-53 | When the request cannot be built, `Call` returns an empty response and that error, and the transport is untouched. Otherwise `Do` is called exactly once: Retries grows by one and the recorded request has the method, URL and body, with every merged header attached. The result is `Classify` of what `Do` answered. |
| Net.NewRequest | http.go:14-17 | The request is built exactly when the method (GET if empty) is a token and the URL parses. It carries the URL, the body and an empty header. |
| Net.HeaderAdd | http.go:20 | `Header.Add` appends the value under the canonical key and leaves every other key alone. |
| Net.CanonicalHeaderKeyIdempotent | http.go:20 | Canonicalising a canonical header key changes nothing. |
| Errors.APIError.Error | errors.go:12-14 | The text starts with the status text and ends with the message. The status code reads back from the text between " [" and "]: ". |
| Errors.APIError.Unwrap | errors.go:16-18 | The text starts with the status text and ends with the message. The status code reads back from the text between ": [" and "]: ". |
| Errors.FormatIntRoundTrip | errors.go:13 | The `%d` text of a status code reads back to the code. |
| Errors.ErrorIgnoresContext | errors.go:12-14 | `Error()` depends only on StatusText, StatusCode and Message, never on Context. |
| Errors.ErrorDeterminesStatusCode | errors.go:12-14 | For a fixed status text and message, different codes give different `Error()` texts. |
| Errors.UnwrapAddsColon | errors.go:16-18 | `Unwrap()` is `Error()` with a colon inserted right after the status text, and so differs from it. |
| Errors.SlackErrorRespOf | errors.go:21-24 | The decoded reply is ok exactly when the JSON has `"ok": true`. An absent error field is "". |
| Mocks.MockHTTPClient.Do | mocks.go:18-30 | Retries grows by one and the request is recorded. With ErrDo set it answers a nil response and Err. Otherwise it answers the configured response, or a 200 without body when none is configured. |
| Mocks.MockHTTPClient.Get | mocks.go:31-42 | Retries grows by one and Req is untouched. It fails only on ErrGet; otherwise it answers the configured or default response. |
| Mocks.MockHTTPClient.Post | mocks.go:43-54 | Retries grows by one and Req is untouched. It fails only on ErrPost; otherwise it answers the configured or default response. |
| Templates.CompilePrint | aeolic.go:40-43 | Compiling the text of any well-formed segment list gives that list back. |
| Templates.LiteralRendersItself | aeolic.go:40-53 | A template without `{{` compiles and renders to its own text, whatever the data. |
| Templates.ExecuteStrict | aeolic.go:45-49 | Execution fails exactly when a referenced key is missing from the data. The failure names the first missing key. |
| Templates.ExecuteConcat | aeolic.go:45-53 | The output of a successful run is the outputs of its parts, in order. |
| Templates.ExecuteStopsAfter | aeolic.go:45-49 | A run that meets a missing key after a successful stretch fails on that key. |
| Templates.ExecuteInto | aeolic.go:45-49 | Writing segment after segment into a buffer gives exactly `Execute`. |
| Templates.ExecuteSameEscape | parse.go:21-28 | Two escapers that agree on every value of the data give the same run. |
| Templates.ExecFailureText | aeolic.go:47-49 | The execution error names `no entry for key "k"` and ends with " \n " followed by the template source verbatim. |
| Templates.Outcome | aeolic.go:40-53 | A compile error gives empty bytes and the compile error. The error is absent exactly when every referenced key is present, and then the bytes hold the rendered output. A missing key gives nil bytes and the execution error for the first missing key, followed by the source. The bytes are nil exactly when a key is missing or the output is empty, since `buf.Bytes()` of an unwritten buffer is nil. |
| Templates.BufferBytes | aeolic.go:45-53 | The bytes of the buffer are nil exactly when nothing was written, and otherwise hold what was written. |
| Templates.EmptySourceIsNil | aeolic.go:45-53 | An empty template renders to nil bytes and no error. |
| Templates.Run | aeolic.go:40-53 | Compiling, then executing into a buffer, gives `Outcome`. |
| TextTemplates.Render | aeolic.go:33-54 | A name absent from the map gives empty bytes and "template not found" before any compile. Otherwise it gives `Outcome` with values copied verbatim. |
| TextTemplates.Parse | aeolic.go:33-54 | The lookup, then compile and buffered execution, gives `Render`. |
| TextTemplates.RenderStrict | aeolic.go:35-49 | Rendering succeeds exactly when the name is registered, the template compiles and every referenced key is in the data. |
| TextTemplates.RenderHello | aeolic.go:45-53 | `{ "hello": "{{ .hello }}" }` with hello = world renders `{ "hello": "world" }` without error. |
| TextTemplates.WithTemplates | aeolic.go:57-75 | A directory that cannot be listed gives the empty map and the error. Otherwise the loop returns the shared loader's result with full-path keys, which is the map so far and the error at the first failing read. |
| TextTemplates.LoadedByPath | aeolic.go:64-71 | With plain file names and no failing read, the keys are exactly the joined paths of the suffixed files. Each holds the contents read from that same path. |
| TextTemplates.New | aeolic.go:18-27 | On a loader error, `New` returns the zero Client and that error. Otherwise the Client holds apiKey and the map loaded with ".tmpl". |
| TextTemplates.NewUnlistable | aeolic.go:19-22 | A directory that cannot be listed yields the zero Client and the listing error. |
| TextTemplates.SendMessage | aeolic.go:29-31 | Whatever its inputs, it fails with "not implemented". |
| HtmlTemplates.Render | parse.go:14-35 | An unregistered name gives empty bytes and "template <name> does not exist", with no compile. Otherwise it gives `Outcome` with HTML-escaped values. |
| HtmlTemplates.Parse | parse.go:14-35 | The lookup, then compile and buffered execution, gives `Render`. |
| HtmlTemplates.RenderStrict | parse.go:16-34 | Rendering succeeds exactly when the name is registered, the template compiles and every referenced key is present. No blank is ever substituted. |
| HtmlTemplates.RenderPlainValues | parse.go:21-28 | When no value holds a special character, the output equals plain substitution. |
| HtmlTemplates.EscapedIsSafe | parse.go:21-28 | No `"`, `'`, `+`, `<`, `>` or NUL survives escaping. Only the `&` of an entity remains. |
| HtmlTemplates.EscapePlain | parse.go:21-28 | A value without special characters is left as it is. |
| HtmlTemplates.UnescapeEscape | parse.go:21-28 | Reading the entities back gives the value again; escaping loses only NUL. |
| HtmlTemplates.WithTemplates | parse.go:38-53 | The loop over the entries returns the shared loader's result with `TrimRight` keys, read at the joined path. |
| HtmlTemplates.TrimRightEatsName | parse.go:48 | `TrimRight("html.tmpl", ".tmpl")` is "h". |
| HtmlTemplates.TrimRightKeysCollide | parse.go:48-49 | "email.tmpl" and "emai.tmpl" are both filed under "emai", and the first one read is lost. |
| HtmlTemplates.WithTemplatesFixed | parse.go:38-53 | The same loop with `TrimSuffix` keys returns the shared loader's result under that policy. |
| HtmlTemplates.FixedLoadsEveryTemplate | parse.go:43-49 | With the fix and no failing read, the keys are exactly the suffixed names minus the suffix. Each holds its own file's contents. |
| HtmlTemplates.TrimSuffixKeepsName | parse.go:48 | With the fix, "html.tmpl" is filed under "html". |
| Registry.LoadFrom | aeolic.go:64-74 | The loop never drops a template already in the map. Registry.LoadFromShape describes its whole result. |
| Registry.Load | aeolic.go:62-74 | Starting from the empty map, the load fails exactly when some suffixed entry cannot be read. The error is then that of the first such entry. |
| Registry.LoadFromShape | aeolic.go:64-74 | The loader stops at the first failing read of a suffixed entry. It returns that error and exactly the templates of the entries before it. Without a failure it returns every readable template and no error. |
| Registry.InsertedKeys | aeolic.go:64-73 | A key is loaded exactly when some suffixed, readable entry is filed under it. |
| Registry.InsertedValue | aeolic.go:71 | When keys are distinct, every readable template is filed with its own contents. |
| Registry.LoadIgnoresUnsuffixed | parse.go:43 | Entries without the suffix change neither the map nor the error. |
| Registry.LoadSameKey | parse.go:49 | Two readable templates with one key leave only the second. |
| Registry.FullPathDistinct | aeolic.go:65 | Full-path keys of plain file names never collide. |
| Registry.FullPathReadsKey | aeolic.go:65-71 | The path read, `Clean(Join(dir, name))`, is the key itself. |
| Registry.StrippedNameDistinct | parse.go:48 | Keys with the suffix cut off once never collide. |
| Strs.TrimRight | parse.go:48 | The result is a prefix of the name, its last character is not in the cutset, and every removed character is in the cutset. |
| Strs.TrimRightDropsCutsetTail | parse.go:48 | Any tail drawn from the cutset is removed whatever precedes it, so a name is trimmed as a character set and not as a suffix. |
| Strs.TrimSuffix | parse.go:48 | A suffixed name is the result followed by the suffix. Any other name is unchanged. |
| Strs.TrimSuffixRoundTrip | parse.go:48 | Appending the suffix and trimming it gives the name back. |
| Paths.JoinPlain | aeolic.go:65 | `Join(dir, name)` of a plain file name is the cleaned directory's prefix followed by the name. |
| Paths.JoinInjective | aeolic.go:65 | Different plain names in one directory get different paths. |
| Paths.CleanIdempotent | aeolic.go:67 | Cleaning a clean path changes nothing. |
| Paths.CleanJoin | aeolic.go:65-67 | `Clean(Join(dir, name))` is `Join(dir, name)`: the file read is the one named by the key. |

## Left out

- The `httpClient` interface (interfaces.go) is not modelled as an abstraction. `Call` takes the one transport the repository defines, `MockHTTPClient`. A real `*http.Client` is not part of this model.
- `setDefaultClient` (http.go:75-91) is left out. It only configures the transport (timeouts, proxy, HTTP/2, idle connections).
- Net.NewRequest: only two `url.Parse` rejections are modelled, a control character before the fragment and a leading ':'. The rest of URL parsing, and the request's parsed URL fields, are not modelled.
- JSON decoding is the parameter `decode`, and `errorMessageContextUrl` is an uninitialised constant. Neither file is part of this model.
- Http.Call requires that `ErrDo` comes with an `Err`. With a nil `Err`, Go's `call` dereferences a nil response and panics, and the model does not describe a panic.
- The `bufio` `Flush` failure branch (aeolic.go:50-52, parse.go:31-33) is left out, because writing to an in-memory buffer cannot fail.
- The Go template language beyond literal text and `{{ .key }}` references is left out: pipelines, functions, conditionals, ranges, `{{-` trimming and other data types. Such actions are compile errors in the model.
- `html/template`'s contextual escaping is left out. Every value is escaped as HTML text, whatever its context (attribute, script, URL). Its removal of HTML comments from the template's literal text is left out too: literal text is copied as written.
- Templates.CompileErrorText: the compile error texts are placeholders of this model. Go's parser puts the line number after the template name and has its own message for each action it rejects.
- Templates.MissingKeyText: the line and column that Go puts after the template name in its error text are left out.
- Data is a `map[string]string`. Go's `any` data (structs, nested maps) is left out.
- Identifiers in field references are ASCII only. Unicode letters are not modelled.
- Retries is an unbounded integer. Go's `int` wrap-around is not modelled.
- Response pointer identity is not modelled. The configured response is returned as a value.
- `os.ReadDir` sorting and the properties of directory entries other than their names are left out.
- Paths.Clean: volume names and Windows separators are left out.
- cmd/slack and cmd/embed_slack are left out. They only read environment variables and call constructors that are not part of this model.

## Findings

| source | as written | input that shows it | evidently intended | confidence | as-written member | corrected member |
|---|---|---|---|---|---|---|
| parse.go:48 | `strings.TrimRight(file.Name(), fileSuffix)` strips trailing characters that belong to the suffix's character set, so the key can lose part of the name and two templates can share a key | "html.tmpl" with suffix ".tmpl" is keyed "h". "email.tmpl" and "emai.tmpl" are both keyed "emai", and the first is lost | strip the suffix once (`strings.TrimSuffix`), keying "html.tmpl" as "html" | high (derived from Go's documented `TrimRight` semantics; not executed) | HtmlTemplates.TrimRightKeysCollide | HtmlTemplates.FixedLoadsEveryTemplate |
