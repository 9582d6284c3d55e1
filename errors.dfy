/** The library's error values (errors.go): `APIError` with its two text forms, and
    the shape of the chat API's in-band reply `{ "ok": ..., "error": ... }`. */
module Errors {

  import opened Wrappers

  /** Decimal digit for 0 <= d < 10. */
  function Digit(d: nat): char
    requires d < 10
  {
    "0123456789"[d]
  }

  /** The value of a decimal digit character. */
  function DigitValue(c: char): nat
  {
    if '0' <= c <= '9' then (c - '0') as nat else 0
  }

  /** Decimal form of a natural number, no leading zeros (fmt's `%d`). */
  function FormatNat(n: nat): (s: string)
    ensures |s| > 0 && forall i :: 0 <= i < |s| ==> '0' <= s[i] <= '9'
    ensures |s| > 1 ==> s[0] != '0'
  {
    if n < 10 then [Digit(n)] else FormatNat(n / 10) + [Digit(n % 10)]
  }

  /** Decimal form of an integer: a minus sign, then the magnitude (fmt's `%d`). */
  function FormatInt(n: int): string
  {
    if n < 0 then "-" + FormatNat(-n) else FormatNat(n)
  }

  /** Reads back a string of decimal digits; the reference for FormatNat. */
  function ParseNat(s: string): nat
  {
    if s == [] then 0 else ParseNat(s[..|s| - 1]) * 10 + DigitValue(s[|s| - 1])
  }

  function ParseInt(s: string): int
  {
    if |s| > 0 && s[0] == '-' then -(ParseNat(s[1..]) as int) else ParseNat(s)
  }

  lemma {:induction false} FormatNatRoundTrip(n: nat)
    ensures ParseNat(FormatNat(n)) == n
  {
    if n >= 10 {
      var s := FormatNat(n / 10) + [Digit(n % 10)];
      assert s[..|s| - 1] == FormatNat(n / 10);
      FormatNatRoundTrip(n / 10);
    }
  }

  /** `%d` loses nothing: the number is read back from its text. */
  lemma FormatIntRoundTrip(n: int)
    ensures ParseInt(FormatInt(n)) == n
  {
    if n < 0 {
      var m: nat := -n;
      var s := "-" + FormatNat(m);
      assert FormatInt(n) == s;
      assert s[0] == '-' && s[1..] == FormatNat(m);
      FormatNatRoundTrip(m);
      assert ParseInt(s) == -(ParseNat(FormatNat(m)) as int);
    } else {
      FormatNatRoundTrip(n);
    }
  }

  lemma FormatIntInjective(a: int, b: int)
    requires FormatInt(a) == FormatInt(b)
    ensures a == b
  {
    FormatIntRoundTrip(a);
    FormatIntRoundTrip(b);
  }

  /** `s` starts with `p` and ends with `q`, the two not overlapping. */
  predicate Framed(s: string, p: string, q: string)
  {
    |s| >= |p| + |q| && s[..|p|] == p && s[|s| - |q|..] == q
  }

  /** What lies between the first `a` and the last `b` characters of `s`. */
  function Between(s: string, a: nat, b: nat): string
    requires a + b <= |s|
  {
    s[a..|s| - b]
  }

  /** `p + c + q` is framed by `p` and `q`, with `c` between them. */
  lemma FramedSlices(p: string, c: string, q: string)
    ensures Framed(p + c + q, p, q)
    ensures Between(p + c + q, |p|, |q|) == c
  {
    var r := p + c + q;
    assert r == p + (c + q);
    assert r[|p|..][..|c|] == c;
  }

  /** errors.go:5-10. `context` is carried but never printed. */
  datatype APIError = APIError(statusCode: int, statusText: string, message: string, context: string)
  {
    /** errors.go:12-14: `"%s [%d]: %s"` over StatusText, StatusCode, Message. */
    function Error(): (r: string)
      ensures Framed(r, statusText + " [", "]: " + message)
      ensures ParseInt(Between(r, |statusText| + 2, |message| + 3)) == statusCode
    {
      var code := FormatInt(statusCode);
      FormatIntRoundTrip(statusCode);
      FramedSlices(statusText + " [", code, "]: " + message);
      assert statusText + " [" + code + "]: " + message == (statusText + " [") + code + ("]: " + message);
      statusText + " [" + code + "]: " + message
    }

    /** errors.go:16-18: `"%s: [%d]: %s"`, the text of the error Unwrap returns. */
    function Unwrap(): (r: string)
      ensures Framed(r, statusText + ": [", "]: " + message)
      ensures ParseInt(Between(r, |statusText| + 3, |message| + 3)) == statusCode
    {
      var code := FormatInt(statusCode);
      FormatIntRoundTrip(statusCode);
      FramedSlices(statusText + ": [", code, "]: " + message);
      assert statusText + ": [" + code + "]: " + message == (statusText + ": [") + code + ("]: " + message);
      statusText + ": [" + code + "]: " + message
    }
  }

  /** The text of an APIError is built from its status text, code and message
      only: the context URL never shows. */
  lemma ErrorIgnoresContext(e1: APIError, e2: APIError)
    requires e1.statusText == e2.statusText && e1.statusCode == e2.statusCode
    requires e1.message == e2.message
    ensures e1.Error() == e2.Error()
  {
  }

  /** Unwrap's text is Error's text with a colon inserted after the status text. */
  lemma UnwrapAddsColon(e: APIError)
    ensures e.Unwrap() == e.statusText + ":" + e.Error()[|e.statusText|..]
    ensures e.Unwrap() != e.Error()
  {
    ColonAfter(e.statusText, FormatInt(e.statusCode), e.message);
  }

  lemma ColonAfter(t: string, c: string, m: string)
    ensures t + ": [" + c + "]: " + m == t + ":" + (t + " [" + c + "]: " + m)[|t|..]
    ensures t + ": [" + c + "]: " + m != t + " [" + c + "]: " + m
  {
    var rest := " [" + c + "]: " + m;
    assert t + " [" + c + "]: " + m == t + rest;
    assert t + ": [" + c + "]: " + m == t + ":" + rest;
    assert (t + rest)[|t|..] == rest;
    assert (t + ":" + rest)[|t|] == ':';
    assert (t + rest)[|t|] == ' ';
  }

  /** Two errors with the same status text and message print the same text
      only if their status codes agree: the code can be read off the text. */
  lemma ErrorDeterminesStatusCode(e1: APIError, e2: APIError)
    requires e1.statusText == e2.statusText && e1.message == e2.message
    requires e1.Error() == e2.Error()
    ensures e1.statusCode == e2.statusCode
  {
    var p := e1.statusText + " [";
    var q := "]: " + e1.message;
    var s1, s2 := FormatInt(e1.statusCode), FormatInt(e2.statusCode);
    assert e1.Error() == p + s1 + q;
    assert e2.Error() == p + s2 + q;
    assert |s1| == |s2|;
    assert (p + s1 + q)[|p|..|p| + |s1|] == s1;
    assert (p + s2 + q)[|p|..|p| + |s2|] == s2;
    FormatIntInjective(e1.statusCode, e2.statusCode);
  }

  /** errors.go:21-24: the two fields decoded from the chat API's reply. A field
      missing from the JSON leaves Go's zero value (false, ""). */
  datatype SlackErrorResp = SlackErrorResp(ok: bool, error: string)

  /** The reply built from the fields present in the JSON object. */
  function SlackErrorRespOf(okField: Option<bool>, errorField: Option<string>): (r: SlackErrorResp)
    ensures r.ok <==> okField == Some(true)
    ensures errorField.None? ==> r.error == ""
  {
    SlackErrorResp(okField.GetOr(false), errorField.GetOr(""))
  }

}
