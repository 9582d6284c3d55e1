/** The parts of Go's net/http (and net/url, net/textproto) whose behaviour the
    library's `call` depends on: status texts, request construction, header
    canonicalisation and `Header.Add`/`Header.Get`. The library's own code is in
    module Http. */
module Net {

  import opened Wrappers
  import opened Errors

  /** A response: its status code and, when the body reader is non-nil, the body. */
  datatype Response = Response(statusCode: int, body: Option<string>)

  /** net/http's `Header`: canonical key to the list of values added under it. */
  type Header = map<string, seq<string>>

  /** A request as `call` builds it. `body` is None for a nil reader. */
  datatype Request = Request(httpMethod: string, url: string, header: Header, body: Option<string>)

  /** The error values that `call` can return. */
  datatype Error =
    | Transport(text: string)        // whatever error the transport's Do returned
    | DecodeError(text: string)      // the JSON decoder's error
    | Api(api: APIError)             // an *APIError built by call
    | InvalidMethod(httpMethod: string)  // "net/http: invalid method %q"
    | InvalidURL(url: string)        // the *url.Error from url.Parse

  /** `http.StatusText`: the reason phrase, "" for an unknown code. */
  function StatusText(code: int): string
  {
    match code
    case 100 => "Continue"
    case 101 => "Switching Protocols"
    case 102 => "Processing"
    case 103 => "Early Hints"
    case 200 => "OK"
    case 201 => "Created"
    case 202 => "Accepted"
    case 203 => "Non-Authoritative Information"
    case 204 => "No Content"
    case 205 => "Reset Content"
    case 206 => "Partial Content"
    case 207 => "Multi-Status"
    case 208 => "Already Reported"
    case 226 => "IM Used"
    case 300 => "Multiple Choices"
    case 301 => "Moved Permanently"
    case 302 => "Found"
    case 303 => "See Other"
    case 304 => "Not Modified"
    case 305 => "Use Proxy"
    case 307 => "Temporary Redirect"
    case 308 => "Permanent Redirect"
    case 400 => "Bad Request"
    case 401 => "Unauthorized"
    case 402 => "Payment Required"
    case 403 => "Forbidden"
    case 404 => "Not Found"
    case 405 => "Method Not Allowed"
    case 406 => "Not Acceptable"
    case 407 => "Proxy Authentication Required"
    case 408 => "Request Timeout"
    case 409 => "Conflict"
    case 410 => "Gone"
    case 411 => "Length Required"
    case 412 => "Precondition Failed"
    case 413 => "Request Entity Too Large"
    case 414 => "Request URI Too Long"
    case 415 => "Unsupported Media Type"
    case 416 => "Requested Range Not Satisfiable"
    case 417 => "Expectation Failed"
    case 418 => "I'm a teapot"
    case 421 => "Misdirected Request"
    case 422 => "Unprocessable Entity"
    case 423 => "Locked"
    case 424 => "Failed Dependency"
    case 425 => "Too Early"
    case 426 => "Upgrade Required"
    case 428 => "Precondition Required"
    case 429 => "Too Many Requests"
    case 431 => "Request Header Fields Too Large"
    case 451 => "Unavailable For Legal Reasons"
    case 500 => "Internal Server Error"
    case 501 => "Not Implemented"
    case 502 => "Bad Gateway"
    case 503 => "Service Unavailable"
    case 504 => "Gateway Timeout"
    case 505 => "HTTP Version Not Supported"
    case 506 => "Variant Also Negotiates"
    case 507 => "Insufficient Storage"
    case 508 => "Loop Detected"
    case 510 => "Not Extended"
    case 511 => "Network Authentication Required"
    case _ => ""
  }

  /** A character of an RFC 7230 token (section 3.2.6). */
  predicate IsTokenChar(c: char)
  {
    c in "!#$%&'*+-.^_`|~" || '0' <= c <= '9' || 'a' <= c <= 'z' || 'A' <= c <= 'Z'
  }

  predicate IsToken(s: string)
  {
    forall i :: 0 <= i < |s| ==> IsTokenChar(s[i])
  }

  /** A method name `http.NewRequest` accepts: a non-empty token. */
  predicate ValidMethod(httpMethod: string)
  {
    |httpMethod| > 0 && IsToken(httpMethod)
  }

  predicate IsCtl(c: char)
  {
    c < ' ' || c == '\U{7F}'
  }

  /** The part of a URL before the first '#'. */
  function BeforeFragment(url: string): (r: string)
    ensures |r| <= |url| && r == url[..|r|]
    ensures '#' !in r
  {
    if url == [] || url[0] == '#' then [] else [url[0]] + BeforeFragment(url[1..])
  }

  /** The rejections of `url.Parse` this model keeps: a control byte before the
      fragment, and an empty scheme (a leading ':'). */
  predicate UrlParses(url: string)
  {
    var u := BeforeFragment(url);
    (forall i :: 0 <= i < |u| ==> !IsCtl(u[i])) && !(|u| > 0 && u[0] == ':')
  }

  /** `http.NewRequest`: "" means GET; an invalid method or an unparsable URL
      is an error; otherwise a request with an empty header. */
  function NewRequest(httpMethod: string, url: string, body: Option<string>): (r: Result<Request, Error>)
    ensures r.Success? <==> ValidMethod(if httpMethod == "" then "GET" else httpMethod) && UrlParses(url)
    ensures r.Success? ==> r.value.url == url && r.value.body == body && r.value.header == map[]
    ensures r.Success? && httpMethod != "" ==> r.value.httpMethod == httpMethod
  {
    var m := if httpMethod == "" then "GET" else httpMethod;
    if !ValidMethod(m) then Failure(InvalidMethod(httpMethod))
    else if !UrlParses(url) then Failure(InvalidURL(url))
    else Success(Request(m, url, map[], body))
  }

  /** One step of textproto's canonicalisation: upper-case a letter at the start
      or after '-', lower-case any other letter. */
  function CaseFold(c: char, upper: bool): char
  {
    if upper && 'a' <= c <= 'z' then (c as int - 32) as char
    else if !upper && 'A' <= c <= 'Z' then (c as int + 32) as char
    else c
  }

  function Capitalize(s: string, upper: bool): (r: string)
    ensures |r| == |s|
  {
    if s == [] then [] else
    var c := CaseFold(s[0], upper);
    [c] + Capitalize(s[1..], c == '-')
  }

  /** `textproto.CanonicalMIMEHeaderKey`: a key with a non-token character is
      returned as it is; otherwise each dash-separated word is capitalised. */
  function CanonicalHeaderKey(s: string): string
  {
    if IsToken(s) then Capitalize(s, true) else s
  }

  lemma {:induction false} CapitalizeIdempotent(s: string, upper: bool)
    requires IsToken(s)
    ensures IsToken(Capitalize(s, upper))
    ensures Capitalize(Capitalize(s, upper), upper) == Capitalize(s, upper)
  {
    if s != [] {
      var c := CaseFold(s[0], upper);
      assert IsToken(s[1..]) by { assert forall i :: 0 <= i < |s| - 1 ==> s[1..][i] == s[i + 1]; }
      CapitalizeIdempotent(s[1..], c == '-');
      var r := Capitalize(s, upper);
      assert r == [c] + Capitalize(s[1..], c == '-');
      assert r[1..] == Capitalize(s[1..], c == '-');
      assert CaseFold(c, upper) == c;
    }
  }

  /** Canonicalising a canonical key changes nothing. */
  lemma CanonicalHeaderKeyIdempotent(s: string)
    ensures CanonicalHeaderKey(CanonicalHeaderKey(s)) == CanonicalHeaderKey(s)
  {
    if IsToken(s) {
      CapitalizeIdempotent(s, true);
    }
  }

  /** `Header.Add`: append the value under the canonical form of the key. */
  function HeaderAdd(h: Header, key: string, value: string): (r: Header)
    ensures r.Keys == h.Keys + {CanonicalHeaderKey(key)}
    ensures r[CanonicalHeaderKey(key)] == (if CanonicalHeaderKey(key) in h then h[CanonicalHeaderKey(key)] else []) + [value]
    ensures forall ck :: ck in h && ck != CanonicalHeaderKey(key) ==> r[ck] == h[ck]
  {
    var ck := CanonicalHeaderKey(key);
    h[ck := (if ck in h then h[ck] else []) + [value]]
  }

  /** `Header.Get`: the first value under the canonical form of the key, or "". */
  function HeaderGet(h: Header, key: string): string
  {
    var ck := CanonicalHeaderKey(key);
    if ck in h && |h[ck]| > 0 then h[ck][0] else ""
  }
}
