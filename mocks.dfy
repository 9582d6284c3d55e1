/** mocks.go: the in-memory transport used by the library's tests. It counts
    every request it serves, remembers the last request given to Do, and answers
    with a canned response or a canned error. */
module Mocks {

  import opened Wrappers
  import opened Net

  /** The response the mock makes up when none is configured: 200, no body. */
  const DefaultResponse: Response := Response(200, None)

  class MockHTTPClient {
    var retries: int
    var resp: Option<Response>
    var req: Option<Request>
    var err: Option<Error>
    var errDo: bool
    var errGet: bool
    var errPost: bool

    /** A struct literal: the configured fields, Retries 0 and no request seen. */
    constructor (resp: Option<Response>, err: Option<Error>, errDo: bool, errGet: bool, errPost: bool)
      ensures this.resp == resp && this.err == err
      ensures this.errDo == errDo && this.errGet == errGet && this.errPost == errPost
      ensures retries == 0 && req == None
    {
      this.resp := resp;
      this.err := err;
      this.errDo := errDo;
      this.errGet := errGet;
      this.errPost := errPost;
      retries := 0;
      req := None;
    }

    /** What a method answers when `fail` is its own failure flag: a nil response
        and the configured error, or the configured response (a 200 without body
        if none is configured) and no error. */
    function Answer(fail: bool): (Option<Response>, Option<Error>)
      reads this
    {
      if fail then (None, err) else (Some(resp.GetOr(DefaultResponse)), None)
    }

    /** mocks.go:18-30 */
    method Do(r: Request) returns (response: Option<Response>, e: Option<Error>)
      modifies this`retries, this`req
      ensures retries == old(retries) + 1
      ensures req == Some(r)
      ensures errDo ==> response == None && e == err
      ensures !errDo ==> e == None && response == Some(if resp.Some? then resp.value else DefaultResponse)
      ensures (response, e) == Answer(errDo)
    {
      retries := retries + 1;
      req := Some(r);
      if errDo {
        return None, err;
      }
      if resp.None? {
        return Some(DefaultResponse), None;
      }
      return resp, None;
    }

    /** mocks.go:31-42: like Do, but fails on ErrGet and leaves Req alone. */
    method Get(url: string) returns (response: Option<Response>, e: Option<Error>)
      modifies this`retries
      ensures retries == old(retries) + 1
      ensures errGet ==> response == None && e == err
      ensures !errGet ==> e == None && response == Some(if resp.Some? then resp.value else DefaultResponse)
    {
      retries := retries + 1;
      if errGet {
        return None, err;
      }
      if resp.None? {
        return Some(DefaultResponse), None;
      }
      return resp, None;
    }

    /** mocks.go:43-54: like Do, but fails on ErrPost and leaves Req alone. */
    method Post(url: string, contentType: string, body: Option<string>) returns (response: Option<Response>, e: Option<Error>)
      modifies this`retries
      ensures retries == old(retries) + 1
      ensures errPost ==> response == None && e == err
      ensures !errPost ==> e == None && response == Some(if resp.Some? then resp.value else DefaultResponse)
    {
      retries := retries + 1;
      if errPost {
        return None, err;
      }
      if resp.None? {
        return Some(DefaultResponse), None;
      }
      return resp, None;
    }
  }
}
