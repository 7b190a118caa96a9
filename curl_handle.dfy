/**
 * The cURL easy handle, seen as the table of options `curl_setopt` writes into,
 * and the values `curl_exec`, `curl_errno`, `curl_error` and `curl_getinfo` report after a transfer.
 */
module CurlHandle {
  import opened Wrappers

  /** The options the two clients set (`CURLINFO_HEADER_OUT` is set like an option to turn on header tracking). */
  datatype CurlOpt =
    | Url | HttpHeader | UserAgent | ReturnTransfer | Timeout | Encoding | HeaderOut
    | Header | FollowLocation | HttpGet | Post | PostFields | CustomRequest

  datatype OptValue = Flag(on: bool) | Number(n: int) | Text(s: string) | TextList(items: seq<string>)

  /**
   * What the transport reports for one `curl_exec`: the returned text (None for `false`),
   * `curl_errno`, `curl_error`, and the `CURLINFO_HTTP_CODE`, `CURLINFO_HEADER_SIZE` and
   * `CURLINFO_HEADER_OUT` values (None for `false`).
   */
  datatype Transfer = Transfer(
    responseText: Option<string>,
    errno: int,
    error: string,
    httpCode: int,
    headerSize: nat,
    headerOut: Option<string>)

  class Handle {
    var options: map<CurlOpt, OptValue>
    var closed: bool

    /** `curl_init()`: a fresh handle with no option set. */
    constructor ()
      ensures options == map[] && !closed
    {
      options := map[];
      closed := false;
    }

    /** `curl_setopt($ch, $opt, $value)`: the option is (re)set, nothing else changes. */
    method SetOpt(opt: CurlOpt, value: OptValue)
      modifies this
      ensures options == old(options)[opt := value]
      ensures closed == old(closed)
    {
      options := options[opt := value];
    }

    /** `curl_close($ch)`. */
    method Close()
      modifies this
      ensures closed
      ensures options == old(options)
    {
      closed := true;
    }
  }

  /** PHP's coercion of `false` (or a string) to a string parameter: `false` becomes "". */
  function CoerceToString(v: Option<string>): (s: string)
    ensures v.Some? ==> s == v.value
    ensures v.None? ==> s == ""
  {
    match v
    case None => ""
    case Some(t) => t
  }
}
