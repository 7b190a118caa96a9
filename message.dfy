/**
 * The request and response values both cURL clients work with. The PSR-7 objects
 * themselves are foreign: a request is the data the clients read from it, and a
 * response records its status, its body text and the `withAddedHeader` calls made on it.
 */
module Message {
  import opened PhpString

  /** One entry of `getHeaders()`: a header name with `getHeaderLine(name)`, the line the request gives for it. */
  datatype HeaderField = HeaderField(name: string, line: string)

  datatype Request = Request(verb: string, uri: string, headers: seq<HeaderField>, body: string)

  datatype Response = Response(status: int, body: string, addedHeaders: seq<(string, string)>)

  /** `$response->withAddedHeader($name, $value)`, recorded as the next added header. */
  function WithAddedHeader(response: Response, name: string, value: string): (r: Response)
    ensures r.status == response.status && r.body == response.body
    ensures r.addedHeaders == response.addedHeaders + [(name, value)]
  {
    response.(addedHeaders := response.addedHeaders + [(name, value)])
  }

  /**
   * `sprintf('%s: %s', $name, $line)`. For a colon-free name, splitting the line at its first
   * colon gives back the name, and the header's line after one space.
   */
  function FormatHeader(f: HeaderField): (r: string)
    ensures |r| == |f.name| + 2 + |f.line|
    ensures ':' !in f.name ==> ':' in r && SplitAtFirst(r, ':') == (f.name, " " + f.line)
  {
    var r := f.name + ": " + f.line;
    assert ':' !in f.name ==> ':' in r && IndexOf(r, ':') == |f.name| by {
      assert r[|f.name|] == ':';
    }
    assert r[..|f.name|] == f.name && r[|f.name| + 1..] == " " + f.line;
    r
  }

  /**
   * The `CURLOPT_HTTPHEADER` list: one formatted line per header name, in `getHeaders()` order,
   * each splitting at its first colon into the name and the line after one space.
   */
  function HeaderLines(fields: seq<HeaderField>): (ls: seq<string>)
    ensures |ls| == |fields|
    ensures forall i :: 0 <= i < |fields| && ':' !in fields[i].name ==>
      ':' in ls[i] && SplitAtFirst(ls[i], ':') == (fields[i].name, " " + fields[i].line)
  {
    seq(|fields|, i requires 0 <= i < |fields| => FormatHeader(fields[i]))
  }

  /** The header-encoding loop of `sendRequest`: appends one `"Name: line"` string per header name. */
  method EncodeHeaders(fields: seq<HeaderField>) returns (lines: seq<string>)
    ensures |lines| == |fields|
    ensures forall i :: 0 <= i < |fields| ==> lines[i] == fields[i].name + ": " + fields[i].line
  {
    lines := [];
    for i := 0 to |fields|
      invariant |lines| == i
      invariant forall j :: 0 <= j < i ==> lines[j] == fields[j].name + ": " + fields[j].line
    {
      lines := lines + [FormatHeader(fields[i])];
    }
  }

  /** The `foreach ... withAddedHeader` loop of `sendRequest`: one added header per parsed entry, in order. */
  method AddHeaders(response: Response, parsed: seq<(string, string)>) returns (r: Response)
    ensures r.status == response.status && r.body == response.body
    ensures r.addedHeaders == response.addedHeaders + parsed
  {
    r := response;
    for i := 0 to |parsed|
      invariant r.status == response.status && r.body == response.body
      invariant r.addedHeaders == response.addedHeaders + parsed[..i]
    {
      r := WithAddedHeader(r, parsed[i].0, parsed[i].1);
      assert parsed[..i + 1] == parsed[..i] + [parsed[i]];
    }
    assert parsed[..|parsed|] == parsed;
  }

  /** The first colon of a formatted header line ends the header name when the name holds none. */
  lemma FormatHeaderColon(f: HeaderField)
    requires ':' !in f.name
    ensures FormatHeader(f) == f.name + [':'] + ([' '] + f.line)
    ensures ':' in FormatHeader(f)
    ensures IndexOf(FormatHeader(f), ':') == |f.name|
  {
    assert FormatHeader(f)[|f.name|] == ':';
  }

  /** A formatted header line holds no CRLF when neither its name nor its line does. */
  lemma {:induction false} FormatHeaderNoCrlf(f: HeaderField)
    requires NoCrlf(f.name) && NoCrlf(f.line)
    ensures NoCrlf(FormatHeader(f))
  {
    var s := FormatHeader(f);
    var n := |f.name|;
    forall i | 0 <= i < |s| - 1
      ensures !(s[i] == '\r' && s[i + 1] == '\n')
    {
      if i + 1 < n {
        assert s[i] == f.name[i] && s[i + 1] == f.name[i + 1];
      } else if i + 1 == n {
        assert s[i + 1] == ':';
      } else if i == n {
        assert s[i] == ':';
      } else if i == n + 1 {
        assert s[i] == ' ';
      } else {
        assert s[i] == f.line[i - n - 2] && s[i + 1] == f.line[i - n - 1];
      }
    }
  }

  /** No encoded header line holds a CRLF when no header name or line does. */
  lemma {:induction false} HeaderLinesNoCrlf(fields: seq<HeaderField>)
    requires forall i :: 0 <= i < |fields| ==> NoCrlf(fields[i].name) && NoCrlf(fields[i].line)
    ensures forall i :: 0 <= i < |fields| ==> NoCrlf(HeaderLines(fields)[i])
  {
    forall i | 0 <= i < |fields|
      ensures NoCrlf(HeaderLines(fields)[i])
    {
      FormatHeaderNoCrlf(fields[i]);
    }
  }
}
