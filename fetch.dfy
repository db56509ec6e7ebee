/**
 * The outcome of one image request (`download_bytes`). The request itself is
 * not modelled; what the network answered is a `Response`, and `Classify` turns
 * it into the 4-tuple (content, content type, status, error) the builder consumes.
 */
module Fetch {
  import opened Wrappers
  import opened Decimal

  newtype byte = x: int | 0 <= x < 256

  /** What a single GET produced. */
  datatype Response =
    | Ok(status: int, body: seq<byte>, contentType: Option<string>)  // the server answered
    | Timeout                                                        // no answer in time
    | TransportError(msg: string)                                    // any other failure, as `str(e)`

  /** `(content, content_type, status_code, error_msg)`. */
  datatype Fetched = Fetched(
    content: Option<seq<byte>>,
    contentType: Option<string>,
    status: Option<int>,
    error: Option<string>)

  /** The success class 2xx (section 15.3 of RFC 9110). */
  predicate IsSuccessStatus(status: int) {
    200 <= status < 300
  }

  /** `download_bytes`, given what the network answered. */
  function Classify(resp: Response): Fetched {
    match resp
    case Ok(status, body, contentType) =>
      if 200 <= status < 300 && |body| > 0 then Fetched(Some(body), contentType, Some(status), None)
      else Fetched(None, contentType, Some(status), Some("HTTP " + IntToDecimal(status)))
    case Timeout => Fetched(None, None, None, Some("timeout"))
    case TransportError(msg) => Fetched(None, None, None, Some(msg))
  }

  /**
   * Content comes back, with no error, exactly for a 2xx answer with a
   * non-empty body; a server answer always reports its status and content type;
   * every other outcome carries an error: `HTTP <status>`, `timeout`, or the
   * failure's own text.
   */
  lemma ClassifyContract(resp: Response)
    ensures var r := Classify(resp);
      && (r.content.Some? <==> resp.Ok? && IsSuccessStatus(resp.status) && |resp.body| > 0)
      && (r.content.Some? <==> r.error.None?)
      && (r.content.Some? ==> r.content.value == resp.body)
      && (resp.Ok? ==> r.status == Some(resp.status) && r.contentType == resp.contentType)
      && (!resp.Ok? ==> r.status == None && r.contentType == None)
      && (resp.Ok? && r.content.None? ==> r.error == Some("HTTP " + IntToDecimal(resp.status)))
      && (resp.Timeout? ==> r.error == Some("timeout"))
      && (resp.TransportError? ==> r.error == Some(resp.msg))
  {
  }

  /** The status of an HTTP failure can be read back from its error text. */
  lemma HttpErrorNamesStatus(resp: Response)
    requires resp.Ok? && resp.status >= 0 && Classify(resp).content.None?
    ensures var e := Classify(resp).error.value;
      |e| > 5 && e[..5] == "HTTP " && AllDigits(e[5..]) && DecimalValue(e[5..]) == resp.status
  {
    var e := Classify(resp).error.value;
    assert e[5..] == NatToDecimal(resp.status);
  }

  /** A 404 answer is reported as `HTTP 404`, with its status and content type. */
  lemma NotFoundExample(body: seq<byte>, contentType: Option<string>)
    ensures Classify(Ok(404, body, contentType)) == Fetched(None, contentType, Some(404), Some("HTTP 404"))
  {
    assert NatToDecimal(4) == "4";
    assert NatToDecimal(40) == NatToDecimal(4) + ['0'] == "40";
    assert NatToDecimal(404) == NatToDecimal(40) + ['4'] == "404";
    assert "HTTP " + "404" == "HTTP 404";
  }

  /** A 2xx answer with an empty body is a failure too. */
  lemma EmptyBodyFails(contentType: Option<string>)
    ensures Classify(Ok(200, [], contentType)).error == Some("HTTP 200")
  {
    assert NatToDecimal(2) == "2";
    assert NatToDecimal(20) == NatToDecimal(2) + ['0'] == "20";
    assert NatToDecimal(200) == NatToDecimal(20) + ['0'] == "200";
    assert "HTTP " + "200" == "HTTP 200";
  }
}
