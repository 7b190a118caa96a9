/**
 * How the two single-request clients differ on the same input: which cURL options their
 * method switches set, and which (name, value) pair their `parseHeaders` functions make of
 * the same header line.
 */
module ClientComparison {
  import opened Wrappers
  import opened PhpString
  import opened Message
  import opened CurlHandle
  import SimpleCurl
  import Curl

  /** The four verbs both method switches name. */
  predicate CommonVerb(verb: string) {
    verb == "GET" || verb == "POST" || verb == "PUT" || verb == "DELETE"
  }

  /** For GET, POST, PUT and DELETE both clients set exactly the same method options. */
  lemma BindersAgreeOnCommonVerbs(verb: string, body: string)
    requires CommonVerb(verb)
    ensures SimpleCurl.MethodOptions(verb, body) == Curl.MethodOptions(verb, body)
  {
    var o := SimpleCurl.MethodOptions(verb, body);
    var p := Curl.MethodOptions(verb, body);
    assert o.Keys == p.Keys;
    forall k | k in o.Keys
      ensures o[k] == p[k]
    {
    }
  }

  /**
   * For any other verb (PATCH included) Curl sets no method option at all, so cURL sends a GET
   * without the body, while SimpleCurl sends the verb as a custom request with the body.
   */
  lemma BindersDifferElsewhere(verb: string, body: string)
    requires !CommonVerb(verb)
    ensures Curl.MethodOptions(verb, body) == map[]
    ensures SimpleCurl.MethodOptions(verb, body) == map[CustomRequest := Text(verb), PostFields := Text(body)]
  {
    var o := SimpleCurl.MethodOptions(verb, body);
    assert o.Keys == {CustomRequest, PostFields};
  }

  /**
   * For a header line encoded as `Name: line` with a colon-free name and line and no
   * surrounding whitespace, SimpleCurl reads back `line` while Curl keeps the leading space.
   */
  lemma ParsersOnEncodedLine(f: HeaderField)
    requires ':' !in f.name && ':' !in f.line
    requires IsTrimmed(f.name) && IsTrimmed(f.line)
    ensures SimpleCurl.LineEntry(FormatHeader(f)) == Some((f.name, f.line))
    ensures Curl.LineEntry(FormatHeader(f)) == Some((f.name, " " + f.line))
  {
    SimpleCurl.ValueKeepsColons(f.name, f.line);
    Curl.LineEntryOfFormatted(f);
    assert f.line[..IndexOf(f.line, ':')] == f.line;
  }

  /**
   * A value holding a colon, such as `Host: example.org:8080`: SimpleCurl keeps the whole
   * value, Curl keeps only a space and the text before the value's colon.
   */
  lemma ParsersDisagreeOnPort(name: string, host: string, port: string)
    requires ':' !in name && ':' !in host
    requires IsTrimmed(name) && IsTrimmed(host + ":" + port)
    ensures SimpleCurl.LineEntry(name + ": " + host + ":" + port) == Some((name, host + ":" + port))
    ensures Curl.LineEntry(name + ": " + host + ":" + port) == Some((name, " " + host))
  {
    var value := host + ":" + port;
    assert SimpleCurl.LineEntry(name + ": " + value) == Some((name, value)) by {
      SimpleCurl.ValueKeepsColons(name, value);
    }
    RegroupPortLine(name, host, port);
    assert Curl.LineEntry(name + ":" + (" " + host) + ":" + port) == Some((name, " " + host)) by {
      Curl.ValueStopsAtSecondColon(name, " " + host, port);
    }
  }

  /** The two ways of reading `name: host:port` used above. */
  lemma RegroupPortLine(name: string, host: string, port: string)
    ensures name + ": " + host + ":" + port == name + ": " + (host + ":" + port)
    ensures name + ": " + host + ":" + port == name + ":" + (" " + host) + ":" + port
  {
    assert ": " == ":" + " ";
  }
}
