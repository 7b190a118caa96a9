/**
 * The `Curl` client: encodes the request headers and fills the handle like SimpleCurl, but
 * with a four-case method switch, no error check, the whole returned text as the body, and
 * response headers parsed from the request header text cURL sent (`CURLINFO_HEADER_OUT`),
 * split on every colon and left untrimmed.
 */
module Curl {
  import opened Wrappers
  import opened PhpString
  import opened PhpArray
  import opened Message
  import opened CurlHandle
  import opened HeaderBlock

  const USER_AGENT: string := "Nltuning-Mailchimp-Client/1.0"
  const TIMEOUT: int := 10
  const ENCODING: string := "UTF-8"

  /**
   * The options `sendRequest` sets before the method switch. None of them is an option the
   * method switch sets; unlike SimpleCurl, response headers stay out of the returned text and
   * redirects are not followed.
   */
  function DefaultOptions(uri: string, headerLines: seq<string>): (o: map<CurlOpt, OptValue>)
    ensures o.Keys !! {HttpGet, Post, CustomRequest, PostFields}
    ensures Header !in o && FollowLocation !in o
    ensures ReturnTransfer in o && o[ReturnTransfer] == Flag(true)
    ensures HeaderOut in o && o[HeaderOut] == Flag(true)
  {
    map[
      Url := Text(uri),
      HttpHeader := TextList(headerLines),
      UserAgent := Text(USER_AGENT),
      ReturnTransfer := Flag(true),
      Timeout := Number(TIMEOUT),
      Encoding := Text(ENCODING),
      HeaderOut := Flag(true)
    ]
  }

  /** The options the four-case method switch sets; any other method gets none. */
  function MethodOptions(verb: string, body: string): (o: map<CurlOpt, OptValue>)
    ensures o.Keys <= {HttpGet, Post, CustomRequest, PostFields}
    ensures HttpGet in o <==> verb == "GET"
    ensures Post in o <==> verb == "POST"
    ensures CustomRequest in o <==> verb == "PUT" || verb == "DELETE"
    ensures PostFields in o <==> verb == "POST" || verb == "PUT"
    ensures HttpGet in o ==> o[HttpGet] == Flag(true)
    ensures Post in o ==> o[Post] == Flag(true)
    ensures CustomRequest in o ==> o[CustomRequest] == Text(verb)
    ensures PostFields in o ==> o[PostFields] == Text(body)
    ensures o == map[] <==> verb != "GET" && verb != "POST" && verb != "PUT" && verb != "DELETE"
  {
    if verb == "GET" then map[HttpGet := Flag(true)]
    else if verb == "POST" then map[Post := Flag(true), PostFields := Text(body)]
    else if verb == "PUT" then map[CustomRequest := Text("PUT"), PostFields := Text(body)]
    else if verb == "DELETE" then map[CustomRequest := Text("DELETE")]
    else map[]
  }

  /** The method switch of `sendRequest`, applied to the handle. */
  method BindMethod(ch: Handle, verb: string, body: string)
    modifies ch
    ensures ch.options == old(ch.options) + MethodOptions(verb, body)
    ensures ch.closed == old(ch.closed)
  {
    if verb == "GET" {
      ch.SetOpt(HttpGet, Flag(true));
    } else if verb == "POST" {
      ch.SetOpt(Post, Flag(true));
      ch.SetOpt(PostFields, Text(body));
    } else if verb == "PUT" {
      ch.SetOpt(CustomRequest, Text("PUT"));
      ch.SetOpt(PostFields, Text(body));
    } else if verb == "DELETE" {
      ch.SetOpt(CustomRequest, Text("DELETE"));
    }
  }

  /**
   * The pair `parseHeaders` stores for one line: lines that are empty or hold no colon are
   * skipped; otherwise the key is the text before the first colon and the value the text
   * between the first and the second colon (or the end), both untrimmed.
   */
  function LineEntry(line: string): (e: Option<(string, string)>)
    ensures e.None? <==> PhpEmpty(line) || ':' !in line
    ensures e.Some? ==> ':' !in e.value.0 && ':' !in e.value.1
  {
    if PhpEmpty(line) || ':' !in line then None
    else
      var i := IndexOf(line, ':');
      var rest := line[i + 1..];
      var j := IndexOf(rest, ':');
      assert ':' !in line[..i] && ':' !in rest[..j] by {
        assert forall k :: 0 <= k < i ==> line[..i][k] == line[k];
        assert forall k :: 0 <= k < j ==> rest[..j][k] == rest[k];
      }
      Some((line[..i], rest[..j]))
  }

  /** `explode(':', $line)` puts that key and value at positions 0 and 1 of its result. */
  lemma ExplodeGivesLineEntry(line: string)
    requires ':' in line
    ensures |Explode(":", line)| >= 2
    ensures !PhpEmpty(line) ==> LineEntry(line) == Some((Explode(":", line)[0], Explode(":", line)[1]))
  {
    var i := IndexOf(line, ':');
    ExplodeCharFirst(':', line);
    ExplodeCharFirstPiece(':', line[i + 1..]);
  }

  /** The array `parseHeaders($headers)` returns: one entry per distinct key, no colon in any key or value. */
  function ParsedHeaders(headers: string): (r: seq<(string, string)>)
    ensures DistinctKeys(r)
    ensures forall p :: p in r ==> ':' !in p.0 && ':' !in p.1
  {
    var lines := Explode(CRLF, headers);
    PutAllDistinctKeys(Entries(lines, LineEntry));
    ParsedFromLines(lines, LineEntry);
    PutAll([], Entries(lines, LineEntry))
  }

  /** `parseHeaders`: the loop over the CRLF-separated lines, writing into `$result`. */
  method ParseHeaders(headers: string) returns (result: seq<(string, string)>)
    ensures result == ParsedHeaders(headers)
    ensures DistinctKeys(result)
  {
    var lines := Explode(CRLF, headers);
    result := [];
    for i := 0 to |lines|
      invariant result == PutAll([], Entries(lines[..i], LineEntry))
    {
      assert lines[..i + 1][..i] == lines[..i];
      var header := lines[i];
      if PhpEmpty(header) || ':' !in header {
        continue;
      }
      var pieces := Explode(":", header);
      ExplodeGivesLineEntry(header);
      result := Put(result, pieces[0], pieces[1]);
    }
    assert lines[..|lines|] == lines;
  }

  /**
   * What `sendRequest` returns for a given transfer outcome: the status code, the whole
   * returned text as body, and the headers parsed from the outgoing request header text.
   * A `false` from `curl_exec` or `curl_getinfo` reaches a string parameter as "".
   */
  function Outcome(t: Transfer): (r: Response)
    ensures r.status == t.httpCode
    ensures t.responseText.Some? ==> r.body == t.responseText.value
    ensures t.responseText.None? ==> r.body == ""
    ensures t.headerOut.None? ==> r.addedHeaders == []
    ensures t.headerOut.Some? ==> r.addedHeaders == ParsedHeaders(t.headerOut.value)
  {
    NothingParsedFromEmpty();
    Response(t.httpCode, CoerceToString(t.responseText), ParsedHeaders(CoerceToString(t.headerOut)))
  }

  /**
   * The headers of the response depend only on the request header text cURL sent: neither
   * the returned text nor the reported header size changes them.
   */
  lemma HeadersIgnoreReturnedText(t: Transfer, text: Option<string>, headerSize: nat)
    ensures Outcome(t).addedHeaders == Outcome(t.(responseText := text, headerSize := headerSize)).addedHeaders
  {
    var t' := t.(responseText := text, headerSize := headerSize);
    assert t'.headerOut == t.headerOut;
  }

  /** An empty header text gives no headers. */
  lemma NothingParsedFromEmpty()
    ensures ParsedHeaders("") == []
  {
    assert Explode(CRLF, "") == [""];
    assert Entries([""], LineEntry) == [];
  }

  /**
   * `sendRequest`: `transfer` stands for what `curl_exec` and `curl_getinfo` report.
   * The handle is returned so that its options can be stated; it is always closed.
   */
  method SendRequest(request: Request, transfer: Transfer) returns (response: Response, ch: Handle)
    ensures fresh(ch)
    ensures ch.options
      == DefaultOptions(request.uri, HeaderLines(request.headers)) + MethodOptions(request.verb, request.body)
    ensures response == Outcome(transfer)
    ensures ch.closed
  {
    var verb := request.verb;
    var headers := EncodeHeaders(request.headers);
    assert headers == HeaderLines(request.headers);

    ch := new Handle();
    ch.SetOpt(Url, Text(request.uri));
    ch.SetOpt(HttpHeader, TextList(headers));
    ch.SetOpt(UserAgent, Text(USER_AGENT));
    ch.SetOpt(ReturnTransfer, Flag(true));
    ch.SetOpt(Timeout, Number(TIMEOUT));
    ch.SetOpt(Encoding, Text(ENCODING));
    ch.SetOpt(HeaderOut, Flag(true));
    BindMethod(ch, verb, request.body);

    var body := CoerceToString(transfer.responseText);
    var parsed := ParseHeaders(CoerceToString(transfer.headerOut));
    response := Response(transfer.httpCode, body, []);
    response := AddHeaders(response, parsed);
    assert response.addedHeaders == parsed;

    ch.Close();
  }

  /**
   * Only the text up to the second colon is kept: `Host: a:80` gives the key `Host` and the
   * value ` a`, losing `80`.
   */
  lemma ValueStopsAtSecondColon(name: string, value: string, dropped: string)
    requires ':' !in name && ':' !in value
    ensures LineEntry(name + ":" + value + ":" + dropped) == Some((name, value))
  {
    var tail := value + ":" + dropped;
    assert name + ":" + value + ":" + dropped == name + ":" + tail;
    LineEntryParts(name, tail);
    assert IndexOf(tail, ':') == |value| by {
      assert tail[|value|] == ':';
    }
    assert tail[..|value|] == value;
  }

  /** Nothing is trimmed: the key keeps everything before the colon and the value keeps its leading space. */
  lemma NoTrimming(name: string, value: string)
    requires ':' !in name && ':' !in value
    ensures LineEntry(name + ":" + value) == Some((name, value))
  {
    LineEntryParts(name, value);
    assert value[..IndexOf(value, ':')] == value;
  }

  /** For a line whose name part holds no colon, the key is that name and the value is the tail up to its first colon. */
  lemma LineEntryParts(name: string, tail: string)
    requires ':' !in name
    ensures LineEntry(name + ":" + tail) == Some((name, tail[..IndexOf(tail, ':')]))
  {
    var line := name + ":" + tail;
    assert ':' in line && !PhpEmpty(line) by {
      assert line[|name|] == ':';
    }
    assert IndexOf(line, ':') == |name| by {
      assert line[|name|] == ':';
    }
    assert line[..|name|] == name;
    assert line[|name| + 1..] == tail;
  }

  /** The value Curl reads back from the encoded line of a header whose text is `line`: a space and the text up to its first colon. */
  function EchoedValue(line: string): string {
    " " + line[..IndexOf(line, ':')]
  }

  /** Each request header as Curl reads it back from its encoded line: the name, and a space plus the line up to its first colon. */
  function EchoedPairs(fields: seq<HeaderField>): (ps: seq<(string, string)>)
    ensures |ps| == |fields|
    ensures forall i :: 0 <= i < |fields| ==>
      ps[i] == (fields[i].name, EchoedValue(fields[i].line))
    decreases |fields|
  {
    if |fields| == 0 then []
    else
      var n := |fields| - 1;
      EchoedPairs(fields[..n]) + [(fields[n].name, EchoedValue(fields[n].line))]
  }

  /** An encoded header line becomes the name and a space plus the line up to its first colon. */
  lemma LineEntryOfFormatted(f: HeaderField)
    requires ':' !in f.name
    ensures LineEntry(FormatHeader(f)) == Some((f.name, EchoedValue(f.line)))
  {
    var tail := [' '] + f.line;
    assert FormatHeader(f) == f.name + ":" + tail;
    LineEntryParts(f.name, tail);
    IndexOfCons(' ', f.line, ':');
    assert tail[..1 + IndexOf(f.line, ':')] == [' '] + f.line[..IndexOf(f.line, ':')];
  }

  lemma {:induction false} EntriesOfEncoded(fields: seq<HeaderField>)
    requires forall i :: 0 <= i < |fields| ==> ':' !in fields[i].name
    ensures Entries(HeaderLines(fields), LineEntry) == EchoedPairs(fields)
    decreases |fields|
  {
    if |fields| > 0 {
      var n := |fields| - 1;
      var lines := HeaderLines(fields);
      EntriesOfEncoded(fields[..n]);
      assert lines[..n] == HeaderLines(fields[..n]);
      LineEntryOfFormatted(fields[n]);
    }
  }

  /**
   * The lines of a request-header block that carry no entry: the request line (no colon),
   * the blank line that ends the block, and the empty piece after its last CRLF.
   */
  lemma {:induction false} EntriesOfRequestBlock(requestLine: string, lines: seq<string>)
    requires ':' !in requestLine && NoCrlf(requestLine)
    requires forall i :: 0 <= i < |lines| ==> NoCrlf(lines[i])
    ensures Entries(Explode(CRLF, CrlfBlock([requestLine] + lines + [""])), LineEntry) == Entries(lines, LineEntry)
  {
    var all := [requestLine] + lines + [""];
    assert forall i :: 0 <= i < |all| ==> NoCrlf(all[i]) by {
      forall i | 0 <= i < |all|
        ensures NoCrlf(all[i])
      {
        if 1 <= i <= |lines| {
          assert all[i] == lines[i - 1];
        }
      }
    }
    ExplodeCrlfBlock(all);
    assert LineEntry(requestLine).None? && LineEntry("").None?;
    calc {
      Entries(all + [[]], LineEntry);
      { assert all + [[]] == [] + [requestLine] + (lines + ["", ""]);
        EntriesSkip([], requestLine, lines + ["", ""], LineEntry); }
      Entries([] + (lines + ["", ""]), LineEntry);
      { assert [] + (lines + ["", ""]) == lines + [""] + [""];
        EntriesSkip(lines, "", [""], LineEntry); }
      Entries(lines + [""], LineEntry);
      { assert lines + [""] == lines + [""] + [];
        EntriesSkip(lines, "", [], LineEntry); }
      Entries(lines + [], LineEntry);
      { assert lines + [] == lines; }
      Entries(lines, LineEntry);
    }
  }

  /**
   * When the header text cURL reports as sent is a colon-free request line, the encoded
   * request headers and the blank line, each CRLF-terminated, the response headers Curl adds
   * are the request's own header names with a space plus the line up to its first colon (for
   * distinct, colon-free names and text without CRLF).
   */
  lemma {:induction false} ResponseEchoesRequestHeaders(t: Transfer, requestLine: string, fields: seq<HeaderField>)
    requires ':' !in requestLine && NoCrlf(requestLine)
    requires forall i :: 0 <= i < |fields| ==> ':' !in fields[i].name && NoCrlf(fields[i].name) && NoCrlf(fields[i].line)
    requires forall i, j :: 0 <= i < j < |fields| ==> fields[i].name != fields[j].name
    requires t.headerOut == Some(CrlfBlock([requestLine] + HeaderLines(fields) + [""]))
    ensures Outcome(t).addedHeaders == EchoedPairs(fields)
  {
    HeaderLinesNoCrlf(fields);
    EntriesOfRequestBlock(requestLine, HeaderLines(fields));
    EntriesOfEncoded(fields);
    PutAllDistinct(EchoedPairs(fields));
  }
}
