/** http.go: merging header sets, the default chat API headers, and `call`,
    which builds one request, hands it to the transport once, and sorts the
    outcome into success, the transport's own error, an HTTP-status APIError,
    a decode error, or an in-band APIError. */
module Http {

  import opened Wrappers
  import opened Errors
  import opened Net
  import opened Mocks

  // ---------------------------------------------------------------------------
  // mergeHeaders

  /** The headers of a list of header sets, each set overriding the ones
      before it. */
  function Merged(headersList: seq<map<string, string>>): map<string, string>
  {
    if headersList == [] then map[]
    else Merged(headersList[..|headersList| - 1]) + headersList[|headersList| - 1]
  }

  /** http.go:56-64: one pass over the sets in order, and over each set's keys in
      whatever order the map yields them, writing each pair into the result. */
  method MergeHeaders(headersList: seq<map<string, string>>) returns (mergedHeaders: map<string, string>)
    ensures mergedHeaders == Merged(headersList)
    ensures headersList == [] ==> mergedHeaders == map[]
  {
    mergedHeaders := map[];
    for i := 0 to |headersList|
      invariant mergedHeaders == Merged(headersList[..i])
    {
      var headers := headersList[i];
      var keys := headers.Keys;
      while keys != {}
        invariant keys <= headers.Keys
        invariant mergedHeaders == Merged(headersList[..i]) + map k | k in headers.Keys - keys :: headers[k]
        decreases keys
      {
        var key :| key in keys;
        mergedHeaders := mergedHeaders[key := headers[key]];
        keys := keys - {key};
      }
      assert headersList[..i + 1][..i] == headersList[..i];
      assert (map k | k in headers.Keys - {} :: headers[k]) == headers;
    }
    assert headersList[..|headersList|] == headersList;
  }

  /** A key is in the merge exactly when some input set has it. */
  lemma {:induction false} MergedKeys(headersList: seq<map<string, string>>, key: string)
    ensures key in Merged(headersList) <==> exists i :: 0 <= i < |headersList| && key in headersList[i]
  {
    if headersList != [] {
      var init := headersList[..|headersList| - 1];
      MergedKeys(init, key);
      if key in Merged(headersList) && key !in headersList[|headersList| - 1] {
        var i :| 0 <= i < |init| && key in init[i];
        assert key in headersList[i];
      }
      if exists i :: 0 <= i < |headersList| && key in headersList[i] {
        var i :| 0 <= i < |headersList| && key in headersList[i];
        if i < |init| {
          assert key in init[i];
        }
      }
    }
  }

  /** The last set that has a key decides its value. */
  lemma {:induction false} MergedLastWriterWins(headersList: seq<map<string, string>>, i: nat, key: string)
    requires i < |headersList| && key in headersList[i]
    requires forall j :: i < j < |headersList| ==> key !in headersList[j]
    ensures key in Merged(headersList) && Merged(headersList)[key] == headersList[i][key]
  {
    var last := |headersList| - 1;
    if i < last {
      var init := headersList[..last];
      assert init[i] == headersList[i];
      forall j | i < j < |init| ensures key !in init[j] {
        assert init[j] == headersList[j];
      }
      MergedLastWriterWins(init, i, key);
    }
  }

  // ---------------------------------------------------------------------------
  // setDefaultHeaders

  /** http.go:67-72: a bearer token carrying the API key, and a JSON body. */
  function DefaultHeaders(apiKey: string): (r: map<string, string>)
    ensures r.Keys == {"Authorization", "Content-Type"}
    ensures |r["Authorization"]| == 7 + |apiKey|
    ensures r["Authorization"][..7] == "Bearer " && r["Authorization"][7..] == apiKey
    ensures r["Content-Type"] == "application/json"
  {
    map["Authorization" := "Bearer " + apiKey, "Content-Type" := "application/json"]
  }

  /** Defaults merged under a per-call set: the bearer token and the JSON content
      type survive unless the per-call set names the same key. */
  lemma DefaultsUnderOverrides(apiKey: string, overrides: map<string, string>)
    ensures Merged([DefaultHeaders(apiKey), overrides]).Keys == {"Authorization", "Content-Type"} + overrides.Keys
    ensures Merged([DefaultHeaders(apiKey), overrides])["Authorization"] ==
            if "Authorization" in overrides then overrides["Authorization"] else "Bearer " + apiKey
    ensures Merged([DefaultHeaders(apiKey), overrides])["Content-Type"] ==
            if "Content-Type" in overrides then overrides["Content-Type"] else "application/json"
  {
    var hs := [DefaultHeaders(apiKey), overrides];
    assert hs[..1] == [DefaultHeaders(apiKey)];
    assert [DefaultHeaders(apiKey)][..0] == [];
    assert Merged(hs[..1]) == map[] + DefaultHeaders(apiKey);
    assert map[] + DefaultHeaders(apiKey) == DefaultHeaders(apiKey);
    assert Merged(hs) == DefaultHeaders(apiKey) + overrides;
  }

  // ---------------------------------------------------------------------------
  // attaching headers with Header.Add

  /** The keys of `keys` whose canonical form under `canon` is `ck`. */
  function SameCanonical(keys: set<string>, ck: string, canon: string -> string): set<string>
  {
    set k | k in keys && canon(k) == ck
  }

  /** Every header key is the canonical form of some key of `m`, and back. */
  ghost predicate KeysAttached(h: Header, m: map<string, string>, canon: string -> string)
  {
    h.Keys == (set k | k in m :: canon(k))
  }

  /** The keys of `m` with canonical form `ck` whose value is `v`. */
  function Filed(m: map<string, string>, canon: string -> string, ck: string, v: string): set<string>
  {
    set k | k in m && canon(k) == ck && m[k] == v
  }

  /** Under each canonical form, every value occurs exactly as often as keys
      of `m` with that form carry it. */
  ghost predicate ValuesCounted(h: Header, m: map<string, string>, canon: string -> string)
  {
    forall ck, v :: ck in h ==> multiset(h[ck])[v] == |Filed(m, canon, ck, v)|
  }

  /** `h` is what adding every pair of `m` to an empty header leaves, in some
      order, when each key is filed under `canon` of it: one value per key, and
      nothing else. The lemmas below hold for any `canon`; `Call` uses
      `CanonicalHeaderKey`, the one `Header.Add` applies. */
  ghost predicate AttachedBy(h: Header, m: map<string, string>, canon: string -> string)
  {
    KeysAttached(h, m, canon) && ValuesCounted(h, m, canon)
  }

  /** `Header.Add` with `canon` in place of the canonicalisation. */
  function AddBy(h: Header, key: string, value: string, canon: string -> string): (r: Header)
    ensures r.Keys == h.Keys + {canon(key)}
    ensures r[canon(key)] == (if canon(key) in h then h[canon(key)] else []) + [value]
    ensures forall ck :: ck in h && ck != canon(key) ==> r[ck] == h[ck]
  {
    h[canon(key) := (if canon(key) in h then h[canon(key)] else []) + [value]]
  }

  lemma AddByIsHeaderAdd(h: Header, key: string, value: string)
    ensures AddBy(h, key, value, CanonicalHeaderKey) == HeaderAdd(h, key, value)
  {
  }

  lemma AddKeepsKeys(h: Header, m: map<string, string>, key: string, value: string, canon: string -> string)
    requires KeysAttached(h, m, canon)
    ensures KeysAttached(AddBy(h, key, value, canon), m[key := value], canon)
  {
    var h', m' := AddBy(h, key, value, canon), m[key := value];
    assert h'.Keys == (set k | k in m' :: canon(k));
  }

  /** A new pair adds one key to the keys filed under its form with its value. */
  lemma FiledAdd(m: map<string, string>, key: string, value: string, canon: string -> string, ck: string, v: string)
    requires key !in m
    ensures |Filed(m[key := value], canon, ck, v)| ==
            |Filed(m, canon, ck, v)| + (if canon(key) == ck && v == value then 1 else 0)
  {
    var m' := m[key := value];
    if canon(key) == ck && v == value {
      assert Filed(m', canon, ck, v) == Filed(m, canon, ck, v) + {key};
    } else {
      assert Filed(m', canon, ck, v) == Filed(m, canon, ck, v);
    }
  }

  lemma AddKeepsCounted(h: Header, m: map<string, string>, key: string, value: string, canon: string -> string)
    requires KeysAttached(h, m, canon) && ValuesCounted(h, m, canon) && key !in m
    ensures ValuesCounted(AddBy(h, key, value, canon), m[key := value], canon)
  {
    var h', m' := AddBy(h, key, value, canon), m[key := value];
    forall ck, v | ck in h' ensures multiset(h'[ck])[v] == |Filed(m', canon, ck, v)| {
      FiledAdd(m, key, value, canon, ck, v);
      if ck !in h {
        assert Filed(m, canon, ck, v) == {} by {
          forall k | k in m ensures canon(k) != ck {
            assert canon(k) in h.Keys;
          }
        }
      }
    }
  }

  /** Adding one more pair keeps the header attached to the grown map. */
  lemma AddKeepsAttached(h: Header, m: map<string, string>, key: string, value: string, canon: string -> string)
    requires AttachedBy(h, m, canon) && key !in m
    ensures AttachedBy(AddBy(h, key, value, canon), m[key := value], canon)
  {
    AddKeepsKeys(h, m, key, value, canon);
    AddKeepsCounted(h, m, key, value, canon);
  }

  /** Every value of `m` is filed under its key's canonical form. */
  lemma AttachedHasValue(h: Header, m: map<string, string>, key: string, canon: string -> string)
    requires AttachedBy(h, m, canon) && key in m
    ensures canon(key) in h && m[key] in h[canon(key)]
  {
    var ck := canon(key);
    assert ck in h.Keys;
    assert key in Filed(m, canon, ck, m[key]);
    assert multiset(h[ck])[m[key]] > 0;
  }

  /** The value filed under a key that shares its canonical form with no other
      key is exactly that key's value. */
  lemma AttachedUnique(h: Header, m: map<string, string>, key: string, canon: string -> string)
    requires AttachedBy(h, m, canon) && key in m
    requires SameCanonical(m.Keys, canon(key), canon) == {key}
    ensures h[canon(key)] == [m[key]]
  {
    var ck, val := canon(key), m[key];
    assert ck in h.Keys;
    var s := h[ck];
    forall v ensures multiset(s)[v] == multiset{val}[v] {
      if v == val {
        assert Filed(m, canon, ck, v) == {key};
      } else {
        assert Filed(m, canon, ck, v) == {} by {
          forall k | k in m && canon(k) == ck ensures m[k] != v {
            assert k in SameCanonical(m.Keys, ck, canon);
          }
        }
      }
    }
    assert multiset(s) == multiset{val};
    assert |s| == 1;
    assert s[0] in multiset(s);
    assert s == [s[0]];
  }

  /** `Header.Get` finds the value of every merged key that shares its
      canonical form with no other key. */
  lemma GetAttached(h: Header, m: map<string, string>, key: string)
    requires AttachedBy(h, m, CanonicalHeaderKey) && key in m
    requires SameCanonical(m.Keys, CanonicalHeaderKey(key), CanonicalHeaderKey) == {key}
    ensures HeaderGet(h, key) == m[key]
  {
    AttachedUnique(h, m, key, CanonicalHeaderKey);
  }

  // ---------------------------------------------------------------------------
  // call

  /** The documentation URL put into in-band errors (its value is not part of
      this model). */
  const ErrorMessageContextUrl: string

  /** How `call` sorts what the transport's Do returned. `decode` is the JSON
      decoder applied to a body. */
  function Classify(outcome: (Option<Response>, Option<Error>), decode: string -> Result<SlackErrorResp, string>)
    : (r: (Option<Response>, Option<Error>))
    requires outcome.1.None? ==> outcome.0.Some?
    ensures r.0 == outcome.0
    ensures outcome.1.Some? ==> r.1 == outcome.1
    ensures r.1.None? <==>
              && outcome.1.None?
              && outcome.0.value.statusCode <= 399
              && (outcome.0.value.body.None? || (decode(outcome.0.value.body.value).Success? && decode(outcome.0.value.body.value).value.ok))
    ensures outcome.1.None? && r.1.Some? && r.1.value.Api? ==> r.1.value.api.statusCode >= 400
  {
    var (resp, err) := outcome;
    if err.Some? then (resp, err)
    else if resp.value.statusCode > 399 then
      (resp, Some(Api(APIError(resp.value.statusCode, StatusText(resp.value.statusCode), "", ""))))
    else if resp.value.body.None? then (resp, None)
    else match decode(resp.value.body.value)
      case Failure(e) => (resp, Some(DecodeError(e)))
      case Success(slackErr) =>
        if slackErr.ok then (resp, None)
        else (resp, Some(Api(APIError(400, StatusText(400), slackErr.error, ErrorMessageContextUrl))))
  }

  /** A status above 399 is an APIError with that status, its text and no
      message, whatever the body and the decoder. */
  lemma ClassifyStatusError(resp: Response, decode: string -> Result<SlackErrorResp, string>)
    requires resp.statusCode > 399
    ensures Classify((Some(resp), None), decode) ==
              (Some(resp), Some(Api(APIError(resp.statusCode, StatusText(resp.statusCode), "", ""))))
  {
  }

  /** A reply without a body is a success, whatever the decoder. */
  lemma ClassifyNoBody(resp: Response, decode: string -> Result<SlackErrorResp, string>)
    requires resp.statusCode <= 399 && resp.body.None?
    ensures Classify((Some(resp), None), decode) == (Some(resp), None)
  {
  }

  /** A body that does not decode gives the decoder's error. */
  lemma ClassifyDecodeFailure(resp: Response, decode: string -> Result<SlackErrorResp, string>)
    requires resp.statusCode <= 399 && resp.body.Some? && decode(resp.body.value).Failure?
    ensures Classify((Some(resp), None), decode) == (Some(resp), Some(DecodeError(decode(resp.body.value).error)))
  {
  }

  /** `ok: false` in a reply of any status up to 399 becomes an APIError of
      status 400, "Bad Request", carrying the reply's error field. */
  lemma ClassifyInBandFailure(resp: Response, decode: string -> Result<SlackErrorResp, string>, message: string)
    requires resp.statusCode <= 399 && resp.body.Some?
    requires decode(resp.body.value) == Success(SlackErrorResp(false, message))
    ensures Classify((Some(resp), None), decode) ==
              (Some(resp), Some(Api(APIError(400, "Bad Request", message, ErrorMessageContextUrl))))
  {
  }

  /** A reply decoded without its `ok` field counts as a failure. */
  lemma ClassifyMissingOk(resp: Response, decode: string -> Result<SlackErrorResp, string>, errorField: Option<string>)
    requires resp.statusCode <= 399 && resp.body.Some?
    requires decode(resp.body.value) == Success(SlackErrorRespOf(None, errorField))
    ensures Classify((Some(resp), None), decode).1.Some?
    ensures Classify((Some(resp), None), decode).1.value.Api?
    ensures Classify((Some(resp), None), decode).1.value.api.statusCode == 400
  {
  }

  /** The text a caller sees for `{"ok": false, "error": "invalid_blocks"}`. */
  lemma InBandFailureText()
    ensures APIError(400, "Bad Request", "invalid_blocks", ErrorMessageContextUrl).Error() == "Bad Request [400]: invalid_blocks"
  {
    FourHundred();
    var e := APIError(400, "Bad Request", "invalid_blocks", ErrorMessageContextUrl);
    assert e.Error() == e.statusText + " [" + FormatInt(e.statusCode) + "]: " + e.message;
    InBandPieces();
  }

  lemma InBandPieces()
    ensures "Bad Request" + " [" + "400" + "]: " + "invalid_blocks" == "Bad Request [400]: invalid_blocks"
  {
  }

  lemma FourHundred()
    ensures FormatInt(400) == "400"
  {
    assert FormatNat(4) == "4";
    assert FormatNat(40) == FormatNat(4) + [Digit(0)] == "40";
    assert FormatNat(400) == FormatNat(40) + [Digit(0)] == "400";
  }

  lemma GrowAdded(added: map<string, string>, allHeaders: map<string, string>, keys: set<string>, key: string)
    requires key in keys && keys <= allHeaders.Keys && added == allHeaders - keys
    ensures key !in added
    ensures added[key := allHeaders[key]] == allHeaders - (keys - {key})
  {
  }

  /** One turn of the loop in AttachHeaders. */
  lemma AddStep(h: Header, added: map<string, string>, key: string, value: string)
    requires key !in added && AttachedBy(h, added, CanonicalHeaderKey)
    ensures AttachedBy(HeaderAdd(h, key, value), added[key := value], CanonicalHeaderKey)
  {
    AddKeepsAttached(h, added, key, value, CanonicalHeaderKey);
    AddByIsHeaderAdd(h, key, value);
  }

  /** http.go:18-21: `Header.Add` of every merged pair, in map order. Only the
      header changes. */
  method AttachHeaders(req: Request, allHeaders: map<string, string>) returns (r: Request)
    requires req.header == map[]
    ensures r == req.(header := r.header)
    ensures AttachedBy(r.header, allHeaders, CanonicalHeaderKey)
  {
    r := req;
    var keys := allHeaders.Keys;
    ghost var added: map<string, string> := map[];
    while keys != {}
      invariant keys <= allHeaders.Keys
      invariant added == allHeaders - keys
      invariant r == req.(header := r.header)
      invariant AttachedBy(r.header, added, CanonicalHeaderKey)
      decreases keys
    {
      var key :| key in keys;
      GrowAdded(added, allHeaders, keys, key);
      AddStep(r.header, added, key, allHeaders[key]);
      r := r.(header := HeaderAdd(r.header, key, allHeaders[key]));
      added := added[key := allHeaders[key]];
      keys := keys - {key};
    }
    assert allHeaders - {} == allHeaders;
  }

  /** http.go:13-53. `client` is the transport; `decode` is the JSON decoder.
      A request that cannot be built never reaches the transport; otherwise Do
      is called exactly once, with every merged header attached. */
  method Call(url: string, httpMethod: string, body: Option<string>, client: MockHTTPClient,
              headers: seq<map<string, string>>, decode: string -> Result<SlackErrorResp, string>)
    returns (resp: Option<Response>, err: Option<Error>)
    requires client.errDo ==> client.err.Some?
    modifies client`retries, client`req
    ensures NewRequest(httpMethod, url, body).Failure? ==>
              && resp == Some(Response(0, None))
              && err == Some(NewRequest(httpMethod, url, body).error)
              && client.retries == old(client.retries)
              && client.req == old(client.req)
    ensures NewRequest(httpMethod, url, body).Success? ==>
              && client.retries == old(client.retries) + 1
              && client.req.Some?
              && client.req.value.httpMethod == NewRequest(httpMethod, url, body).value.httpMethod
              && client.req.value.url == url
              && client.req.value.body == body
              && AttachedBy(client.req.value.header, Merged(headers), CanonicalHeaderKey)
              && (resp, err) == Classify(client.Answer(client.errDo), decode)
  {
    var built := NewRequest(httpMethod, url, body);
    if built.Failure? {
      return Some(Response(0, None)), Some(built.error);
    }
    var allHeaders := MergeHeaders(headers);
    var req := AttachHeaders(built.value, allHeaders);
    var doResp, doErr := client.Do(req);
    resp, err := Classify((doResp, doErr), decode).0, Classify((doResp, doErr), decode).1;
  }
}
