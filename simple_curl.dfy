/**
 * The `SimpleCurl` client: one request per call. It encodes the request headers, fills a
 * cURL handle with default and method-specific options, turns a failed transfer into a
 * RuntimeException, and otherwise cuts the returned text into header block and body,
 * parses the header block and builds the response.
 */
module SimpleCurl {
  import opened Wrappers
  import opened PhpString
  import opened PhpArray
  import opened Message
  import opened CurlHandle
  import opened HeaderBlock

  const TIMEOUT: int := 10
  const ENCODING: string := "UTF-8"

  /** PHP's `\RuntimeException`, with its message and code. */
  datatype RuntimeException = RuntimeException(message: string, code: int)

  /**
   * The options `sendRequest` sets before the method switch. The user agent depends on the
   * host (PHP version, OS name and release) and is given as a parameter. None of them is an
   * option the method switch sets, so the switch adds to them and overwrites none; the
   * transfer returns its text, response headers included, which `SplitResponse` cuts apart.
   */
  function DefaultOptions(uri: string, headerLines: seq<string>, userAgent: string): (o: map<CurlOpt, OptValue>)
    ensures o.Keys !! {HttpGet, Post, CustomRequest, PostFields}
    ensures ReturnTransfer in o && o[ReturnTransfer] == Flag(true)
    ensures Header in o && o[Header] == Flag(true)
  {
    map[
      Url := Text(uri),
      HttpHeader := TextList(headerLines),
      UserAgent := Text(userAgent),
      ReturnTransfer := Flag(true),
      Timeout := Number(TIMEOUT),
      Encoding := Text(ENCODING),
      HeaderOut := Flag(true),
      Header := Flag(true),
      FollowLocation := Flag(true)
    ]
  }

  /** The options the method switch sets for `verb`, attaching `body` where it does. */
  function MethodOptions(verb: string, body: string): (o: map<CurlOpt, OptValue>)
    ensures o.Keys <= {HttpGet, Post, CustomRequest, PostFields}
    ensures HttpGet in o <==> verb == "GET"
    ensures Post in o <==> verb == "POST"
    ensures CustomRequest in o <==> verb != "GET" && verb != "POST"
    ensures PostFields in o <==> verb != "GET" && verb != "DELETE"
    ensures HttpGet in o ==> o[HttpGet] == Flag(true)
    ensures Post in o ==> o[Post] == Flag(true)
    ensures CustomRequest in o ==> o[CustomRequest] == Text(verb)
    ensures PostFields in o ==> o[PostFields] == Text(body)
  {
    if verb == "GET" then map[HttpGet := Flag(true)]
    else if verb == "POST" then map[Post := Flag(true), PostFields := Text(body)]
    else if verb == "PUT" then map[CustomRequest := Text("PUT"), PostFields := Text(body)]
    else if verb == "PATCH" then map[CustomRequest := Text("PATCH"), PostFields := Text(body)]
    else if verb == "DELETE" then map[CustomRequest := Text("DELETE")]
    else map[CustomRequest := Text(verb), PostFields := Text(body)]
  }

  /** The method switch of `sendRequest`, applied to the handle. */
  method BindMethod(ch: Handle, verb: string, body: string)
    modifies ch
    ensures ch.options == old(ch.options) + MethodOptions(verb, body)
    ensures ch.closed == old(ch.closed)
  {
    if verb == "GET" {
      ch.SetOpt(HttpGet, Flag(true));
    } else if verb == "POST" {
      ch.SetOpt(Post, Flag(true));
      ch.SetOpt(PostFields, Text(body));
    } else if verb == "PUT" {
      ch.SetOpt(CustomRequest, Text("PUT"));
      ch.SetOpt(PostFields, Text(body));
    } else if verb == "PATCH" {
      ch.SetOpt(CustomRequest, Text("PATCH"));
      ch.SetOpt(PostFields, Text(body));
    } else if verb == "DELETE" {
      ch.SetOpt(CustomRequest, Text("DELETE"));
    } else {
      ch.SetOpt(CustomRequest, Text(verb));
      ch.SetOpt(PostFields, Text(body));
    }
  }

  /**
   * `substr($responseText, 0, $headerSize)` and `substr($responseText, $headerSize)`:
   * the first min(headerSize, |text|) characters are the header block, the rest is the body.
   */
  function SplitResponse(text: string, headerSize: nat): (parts: (string, string))
    ensures parts.0 + parts.1 == text
    ensures |parts.0| == if headerSize <= |text| then headerSize else |text|
  {
    (Prefix(text, headerSize), SubstrFrom(text, headerSize))
  }

  /**
   * The pair `parseHeaders` stores for one line: lines that are empty or hold no colon are
   * skipped; otherwise the line is split at its first colon and both sides are trimmed.
   */
  function LineEntry(line: string): (e: Option<(string, string)>)
    ensures e.None? <==> PhpEmpty(line) || ':' !in line
    ensures e.Some? ==> IsTrimmed(e.value.0) && IsTrimmed(e.value.1)
  {
    if PhpEmpty(line) || ':' !in line then None
    else
      var (header, value) := SplitAtFirst(line, ':');
      Some((Trim(header), Trim(value)))
  }

  /**
   * The array `parseHeaders($headers)` returns: one entry per distinct key, every key and
   * every value without whitespace at either end.
   */
  function ParsedHeaders(headers: string): (r: seq<(string, string)>)
    ensures DistinctKeys(r)
    ensures forall p :: p in r ==> IsTrimmed(p.0) && IsTrimmed(p.1)
  {
    var lines := Explode(CRLF, headers);
    PutAllDistinctKeys(Entries(lines, LineEntry));
    ParsedFromLines(lines, LineEntry);
    PutAll([], Entries(lines, LineEntry))
  }

  /** `parseHeaders`: the loop over the CRLF-separated lines, writing into `$result`. */
  method ParseHeaders(headers: string) returns (result: seq<(string, string)>)
    ensures result == ParsedHeaders(headers)
    ensures DistinctKeys(result)
  {
    var lines := Explode(CRLF, headers);
    result := [];
    for i := 0 to |lines|
      invariant result == PutAll([], Entries(lines[..i], LineEntry))
    {
      assert lines[..i + 1][..i] == lines[..i];
      var line := lines[i];
      if PhpEmpty(line) || ':' !in line {
        continue;
      }
      var (header, value) := SplitAtFirst(line, ':');
      result := Put(result, Trim(header), Trim(value));
    }
    assert lines[..|lines|] == lines;
  }

  /** What `sendRequest` returns or throws for a given transfer outcome. */
  function Outcome(t: Transfer): (r: Result<Response, RuntimeException>)
    ensures r.Failure? <==> t.responseText.None?
    ensures r.Failure? ==> r.error == RuntimeException("Curl error: " + t.error, t.errno)
    ensures r.Success? ==> r.value.status == t.httpCode
    ensures r.Success? ==>
      var text := t.responseText.value;
      var cut := if t.headerSize <= |text| then t.headerSize else |text|;
      r.value.body == text[cut..] && r.value.addedHeaders == ParsedHeaders(text[..cut])
  {
    match t.responseText
    case None => Failure(RuntimeException("Curl error: " + t.error, t.errno))
    case Some(text) =>
      var (headers, body) := SplitResponse(text, t.headerSize);
      Success(Response(t.httpCode, body, ParsedHeaders(headers)))
  }

  /**
   * `sendRequest`: `transfer` stands for what `curl_exec` and `curl_getinfo` report, and
   * `userAgent` for `getUserAgent()`. The handle is returned so that its options can be stated;
   * it is closed only on success, since the exception is thrown before `curl_close`.
   */
  method SendRequest(request: Request, userAgent: string, transfer: Transfer)
    returns (result: Result<Response, RuntimeException>, ch: Handle)
    ensures fresh(ch)
    ensures ch.options
      == DefaultOptions(request.uri, HeaderLines(request.headers), userAgent)
       + MethodOptions(request.verb, request.body)
    ensures result == Outcome(transfer)
    ensures ch.closed <==> result.Success?
  {
    var verb := request.verb;
    var headers := EncodeHeaders(request.headers);
    assert headers == HeaderLines(request.headers);

    ch := new Handle();
    ch.SetOpt(Url, Text(request.uri));
    ch.SetOpt(HttpHeader, TextList(headers));
    ch.SetOpt(UserAgent, Text(userAgent));
    ch.SetOpt(ReturnTransfer, Flag(true));
    ch.SetOpt(Timeout, Number(TIMEOUT));
    ch.SetOpt(Encoding, Text(ENCODING));
    ch.SetOpt(HeaderOut, Flag(true));
    ch.SetOpt(Header, Flag(true));
    ch.SetOpt(FollowLocation, Flag(true));
    BindMethod(ch, verb, request.body);

    if transfer.responseText.None? {
      result := Failure(RuntimeException("Curl error: " + transfer.error, transfer.errno));
      return;
    }
    var responseText := transfer.responseText.value;
    var headerSize := transfer.headerSize;
    var headerBlock := Prefix(responseText, headerSize);
    var body := SubstrFrom(responseText, headerSize);

    var parsedHeaders := ParseHeaders(headerBlock);
    var response := Response(transfer.httpCode, body, []);
    response := AddHeaders(response, parsedHeaders);
    assert response.addedHeaders == parsedHeaders;

    ch.Close();
    result := Success(response);
  }

  /** A line whose name part holds no colon is split there, whatever colons the value holds. */
  lemma LineEntryFirstColon(name: string, value: string)
    requires ':' !in name
    ensures LineEntry(name + ":" + value) == Some((Trim(name), Trim(value)))
  {
    var line := name + ":" + value;
    assert line[|name|] == ':';
    var parts := SplitAtFirst(line, ':');
    assert IndexOf(line, ':') == |name|;
    assert parts.0 == name;
    assert parts.1 == value;
    assert !PhpEmpty(line);
  }

  /**
   * A value may itself hold colons: `Location: http://x:80/` gives `Location` and
   * `http://x:80/`. Names and values without surrounding whitespace come back as they are.
   */
  lemma ValueKeepsColons(name: string, value: string)
    requires ':' !in name && IsTrimmed(name) && IsTrimmed(value)
    ensures LineEntry(name + ": " + value) == Some((name, value))
  {
    var line := name + ": " + value;
    assert LineEntry(line) == Some((Trim(name), Trim([' '] + value))) by {
      assert line == name + ":" + ([' '] + value);
      LineEntryFirstColon(name, [' '] + value);
    }
    assert Trim(name) == name by {
      TrimKeeps(name);
    }
    assert Trim([' '] + value) == value by {
      TrimDropsLeading(' ', value);
      TrimKeeps(value);
    }
  }

  /** A line `Name:` gives the name with the empty value; it is not dropped. */
  lemma EmptyValueKept(name: string)
    requires ':' !in name
    ensures LineEntry(name + ":") == Some((Trim(name), ""))
  {
    LineEntryFirstColon(name, "");
    assert name + ":" + "" == name + ":";
  }

  /** An encoded header line becomes the pair of the trimmed name and the trimmed line. */
  lemma LineEntryOfFormatted(f: HeaderField)
    requires ':' !in f.name
    ensures LineEntry(FormatHeader(f)) == Some((Trim(f.name), Trim(f.line)))
  {
    FormatHeaderColon(f);
    LineEntryFirstColon(f.name, [' '] + f.line);
    TrimDropsLeading(' ', f.line);
  }

  /** Each request header as the pair of its trimmed name and trimmed line, in order. */
  function TrimmedPairs(fields: seq<HeaderField>): (ps: seq<(string, string)>)
    ensures |ps| == |fields|
    ensures forall i :: 0 <= i < |fields| ==> ps[i] == (Trim(fields[i].name), Trim(fields[i].line))
    decreases |fields|
  {
    if |fields| == 0 then []
    else
      var n := |fields| - 1;
      TrimmedPairs(fields[..n]) + [(Trim(fields[n].name), Trim(fields[n].line))]
  }

  /** The pairs SimpleCurl makes of the encoded header lines: trimmed name and trimmed line. */
  lemma {:induction false} EntriesOfEncoded(fields: seq<HeaderField>)
    requires forall i :: 0 <= i < |fields| ==> ':' !in fields[i].name
    ensures Entries(HeaderLines(fields), LineEntry) == TrimmedPairs(fields)
    decreases |fields|
  {
    if |fields| > 0 {
      var n := |fields| - 1;
      var lines := HeaderLines(fields);
      EntriesOfEncoded(fields[..n]);
      assert lines[..n] == HeaderLines(fields[..n]);
      LineEntryOfFormatted(fields[n]);
    }
  }

  /**
   * Parsing a CRLF-terminated block of encoded request headers gives back each header's
   * trimmed name and trimmed line, in order, when names hold no colon, nothing holds a CRLF,
   * and the trimmed names are distinct.
   */
  lemma {:induction false} ParseEncodedHeaders(fields: seq<HeaderField>)
    requires forall i :: 0 <= i < |fields| ==> ':' !in fields[i].name && NoCrlf(fields[i].name) && NoCrlf(fields[i].line)
    requires forall i, j :: 0 <= i < j < |fields| ==> Trim(fields[i].name) != Trim(fields[j].name)
    ensures ParsedHeaders(CrlfBlock(HeaderLines(fields))) == TrimmedPairs(fields)
  {
    HeaderLinesNoCrlf(fields);
    EntriesOfBlock(HeaderLines(fields), LineEntry);
    EntriesOfEncoded(fields);
    PutAllDistinct(TrimmedPairs(fields));
  }
}
