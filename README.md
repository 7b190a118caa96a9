# The single-request cURL clients of Concept-Labs/http-client, in Dafny

This project models how the two PSR-18 clients `SimpleCurl` and `Curl` translate a request into cURL options
and a transfer result back into a response. It then proves properties of that translation.

Each client does the same four jobs:

- **Header encoding.** It turns the request's headers into one `"Name: line"` string per header name.
- **Method binding.** It sets the cURL options that belong to the HTTP method.
- **Response splitting** (`SimpleCurl` only). It cuts the returned text at the reported header size into a header block and a body.
- **Header parsing.** It splits a header block on CRLF and turns each line into a (name, value) pair. It writes each pair into a PHP array, so a later duplicate name overwrites the earlier value.

How the model is built:

- **The cURL handle** is a class, `CurlHandle.Handle`. It holds the option table that `curl_setopt` writes and a flag for `curl_close`.
- **Transport results** are an input datatype, `CurlHandle.Transfer`. It holds what `curl_exec`, `curl_errno`, `curl_error` and `curl_getinfo` report.
- **A response** is its status, its body text and the list of `withAddedHeader` calls made on it.
- **PHP built-ins** are modelled on `seq<char>` in `PhpString`: `explode`, `trim`, `substr`, `strpos` and `empty`.
- **PHP's ordered array** is modelled in `PhpArray`. Overwriting a key keeps the key's original position.

Modules:

| module | file | what it holds |
|---|---|---|
| `Wrappers` | wrappers.dfy | `Option` and `Result` |
| `PhpString` | php_string.dfy | the string built-ins and their lemmas (round trip of `explode`/`implode`, what `trim` keeps) |
| `PhpArray` | php_array.dfy | the ordered array as a list of pairs: `Put` for `$a[$k] = $v`, `PutAll` for a loop of such writes |
| `Message` | message.dfy | request and response values, the header-encoding loop and the `withAddedHeader` loop |
| `CurlHandle` | curl_handle.dfy | the handle class, option names and values, the transfer outcome |
| `HeaderBlock` | header_block.dfy | `Entries`: the pairs a line reader makes of a list of lines, and the array written from them, shared by both parsers |
| `SimpleCurl` | simple_curl.dfy | `SimpleCurl::sendRequest` and `SimpleCurl::parseHeaders` |
| `Curl` | curl.dfy | `Curl::sendRequest` and `Curl::parseHeaders` |
| `ClientComparison` | comparison.dfy | where the two clients agree and where they differ |

Each imperative piece of the source is a method. Each method is proved against a specification function: `ParseHeaders` against `ParsedHeaders`, `BindMethod` against `MethodOptions`, `SendRequest` against `Outcome`. The properties the source promises are lemmas about those functions.

## Model

| member | source | states |
|---|---|---|
| Message.EncodeHeaders | src/Client/Curl/SimpleCurl.php:73-76 | one string per header name, in `getHeaders()` order; the i-th is `name + ": " + line` of the i-th header |
| Message.WithAddedHeader | src/Client/Curl/SimpleCurl.php:140 | `withAddedHeader` appends exactly one (name, value) call and keeps the status and the body |
| Message.AddHeaders | src/Client/Curl/SimpleCurl.php:139-141 | the loop adds the parsed entries as headers in order, after any already added; status and body are unchanged |
| Message.FormatHeader | src/Client/Curl/SimpleCurl.php:75 | an encoded line is as long as the name, `": "` and the line together; for a colon-free name, splitting it at its first colon gives back the name and a space plus the line |
| Message.HeaderLines | src/Client/Curl/SimpleCurl.php:73-76 | one encoded line per header, in `getHeaders()` order; each line of a colon-free name splits at its first colon into the name and a space plus the line |
| Message.FormatHeaderColon | src/Client/Curl/SimpleCurl.php:75 | for a colon-free name, the first colon of an encoded line is at the position right after the name, and the line is the name, that colon, a space and the header's line |
| Message.FormatHeaderNoCrlf | src/Client/Curl/SimpleCurl.php:75 | an encoded line holds no CRLF when neither the name nor the line does |
| Message.HeaderLinesNoCrlf | src/Client/Curl/SimpleCurl.php:73-76 | no encoded line holds a CRLF when no name or line does |
| CurlHandle.Handle.constructor | src/Client/Curl/SimpleCurl.php:78 | `curl_init` gives an open handle with no option set |
| CurlHandle.Handle.SetOpt | src/Client/Curl/SimpleCurl.php:79-91 | `curl_setopt` sets (or resets) exactly one option and changes nothing else |
| CurlHandle.Handle.Close | src/Client/Curl/SimpleCurl.php:143 | `curl_close` marks the handle closed and keeps its options |
| PhpString.IndexOf | src/Client/Curl/SimpleCurl.php:160 | `strpos` for one character: the index of the first occurrence, or the length when there is none |
| PhpString.SplitAtFirst | src/Client/Curl/SimpleCurl.php:164 | `explode(':', $line, 2)`: the two parts joined by the colon give the line back, and the first part holds no colon |
| PhpString.Trim | src/Client/Curl/SimpleCurl.php:165 | the result is no longer than the input and starts and ends with no trim character |
| PhpString.TrimKeepsMiddle | src/Client/Curl/SimpleCurl.php:165 | `trim` keeps a contiguous slice of its input; everything cut off before and after it is a trim character |
| PhpString.TrimKeeps | src/Client/Curl/SimpleCurl.php:165 | a string with no trim character at either end is left as it is |
| PhpString.TrimIdempotent | src/Client/Curl/SimpleCurl.php:165 | trimming twice is trimming once |
| PhpString.TrimDropsLeading | src/Client/Curl/SimpleCurl.php:165 | a leading trim character (such as the space after the colon) does not change the trimmed result |
| PhpString.TrimStartDropsPrefix | src/Client/Curl/SimpleCurl.php:165 | the front part `trim` removes is a prefix made only of trim characters |
| PhpString.TrimEndDropsSuffix | src/Client/Curl/SimpleCurl.php:165 | the back part `trim` removes is a suffix made only of trim characters |
| PhpString.Prefix | src/Client/Curl/SimpleCurl.php:129 | `substr($s, 0, $n)` is a prefix of `s` of length min(n, length of s) |
| PhpString.SubstrFrom | src/Client/Curl/SimpleCurl.php:130 | `substr($s, $n)` is what follows `substr($s, 0, $n)` in `s`: the two together give `s` back, for every n, so the result is `""` past the end |
| PhpString.Explode | src/Client/Curl/SimpleCurl.php:156 | `explode` always returns at least one piece |
| PhpString.ImplodeExplode | src/Client/Curl/SimpleCurl.php:156 | gluing the pieces of `explode` back together with the delimiter gives the original text |
| PhpString.ExplodeCutsFirst | src/Client/Curl/SimpleCurl.php:156 | when the delimiter first occurs right after `x`, `explode` cuts off exactly `x` as the first piece |
| PhpString.ExplodeCharAbsent | src/Client/Curl/Curl.php:111 | exploding on a character that does not occur gives the whole text as the only piece |
| PhpString.ExplodeCharFirst | src/Client/Curl/Curl.php:111 | exploding on a character that occurs gives the text before its first occurrence, then the pieces of the rest |
| PhpString.ExplodeCharFirstPiece | src/Client/Curl/Curl.php:111-112 | piece 0 of exploding on a character is the text before its first occurrence |
| PhpString.ExplodeCrlfBlock | src/Client/Curl/SimpleCurl.php:156 | splitting a block of CRLF-terminated, CRLF-free lines on CRLF gives back the lines and one empty piece |
| PhpArray.KeysOf | src/Client/Curl/SimpleCurl.php:165 | an array has one key per entry |
| PhpArray.Put | src/Client/Curl/SimpleCurl.php:165 | after `$a[$k] = $v` the array holds the pair (k, v), and every other entry was already there |
| PhpArray.PutAll | src/Client/Curl/SimpleCurl.php:159-166 | after a loop of writes, every entry is an entry of the starting array or one of the written pairs |
| PhpArray.PutLookup | src/Client/Curl/SimpleCurl.php:165 | after `$a[$k] = $v`, `k` reads `v` and every other key reads what it read before |
| PhpArray.PutKeys | src/Client/Curl/SimpleCurl.php:165 | writing an existing key keeps the key order; writing a new key appends it at the end |
| PhpArray.PutDistinct | src/Client/Curl/SimpleCurl.php:165 | writing a key never creates a second entry for it |
| PhpArray.LookupPresent | src/Client/Curl/SimpleCurl.php:165 | a key reads a value exactly when it is one of the array's keys |
| PhpArray.PutAllLookup | src/Client/Curl/SimpleCurl.php:159-166 | after a loop of writes, each key reads the value of its last write |
| PhpArray.PutAllKeys | src/Client/Curl/SimpleCurl.php:159-166 | after a loop of writes, the keys are the written keys without repeats, in order of first write |
| PhpArray.PutAllDistinctKeys | src/Client/Curl/SimpleCurl.php:159-166 | after a loop of writes, no key occurs twice |
| PhpArray.PutAllDistinct | src/Client/Curl/SimpleCurl.php:159-166 | writing pairs with distinct keys into an empty array gives those pairs in order |
| PhpArray.DedupHas | src/Client/Curl/SimpleCurl.php:159-166 | support of `PutAllKeys`: the key order after a loop of writes (its repeats removed) holds exactly the keys written |
| HeaderBlock.EntriesSkip | src/Client/Curl/SimpleCurl.php:160-162 | a line the parser skips can be taken out of the line list without changing the pairs |
| HeaderBlock.EntriesFromLines | src/Client/Curl/SimpleCurl.php:159-166 | every pair comes from some line of the block, and every line that makes a pair contributes it |
| HeaderBlock.EntriesOfBlock | src/Client/Curl/SimpleCurl.php:156-166 | parsing a CRLF-terminated block reads exactly its lines, and the empty piece after the last CRLF adds nothing |
| HeaderBlock.LastLineWins | src/Client/Curl/SimpleCurl.php:159-166 | in both parsers (also Curl.php lines 107-113) later lines overwrite earlier ones: a key reads the value of the last line carrying it, and there is one entry per distinct key, in order of first appearance |
| HeaderBlock.ParsedFromLines | src/Client/Curl/SimpleCurl.php:159-166 | every entry of the parsed array is the pair some line of the block makes |
| SimpleCurl.MethodOptions | src/Client/Curl/SimpleCurl.php:96-119 | HTTPGET iff GET; POST iff POST; custom verb (the method itself) iff neither GET nor POST; body attached iff neither GET nor DELETE; no other option |
| SimpleCurl.DefaultOptions | src/Client/Curl/SimpleCurl.php:79-91 | the nine default options include none the method switch sets, so the switch only adds options; the transfer returns its text with the response headers in it |
| SimpleCurl.BindMethod | src/Client/Curl/SimpleCurl.php:96-119 | the switch adds exactly the method options to the handle's options and leaves it open |
| SimpleCurl.SplitResponse | src/Client/Curl/SimpleCurl.php:128-130 | header block and body together give the returned text; the header block has length min(header size, text length) |
| SimpleCurl.LineEntry | src/Client/Curl/SimpleCurl.php:160-165 | a line makes no pair exactly when it is empty, `"0"`, or holds no colon; the key and value of a pair start and end with no trim character |
| SimpleCurl.ParsedHeaders | src/Client/Curl/SimpleCurl.php:154-169 | the array `parseHeaders` returns has one entry per distinct key, and every key and value starts and ends with no trim character (space, tab, newline, carriage return, NUL, vertical tab) |
| SimpleCurl.ParseHeaders | src/Client/Curl/SimpleCurl.php:154-169 | the loop computes the array of the skip-split-trim-overwrite reading of the block, and its keys are distinct |
| SimpleCurl.Outcome | src/Client/Curl/SimpleCurl.php:121-141 | a `false` exec gives a RuntimeException with message `"Curl error: "` + error and the errno as code, and nothing else; otherwise the status is the HTTP code, the body is the text after min(header size, length), and the added headers are the parsed header block |
| SimpleCurl.SendRequest | src/Client/Curl/SimpleCurl.php:69-146 | the handle holds the nine default options plus the method options; the result is `Outcome`; the handle is closed exactly when no exception is thrown |
| SimpleCurl.LineEntryFirstColon | src/Client/Curl/SimpleCurl.php:164-165 | a line is split at its first colon and both sides are trimmed, whatever colons the value holds |
| SimpleCurl.ValueKeepsColons | src/Client/Curl/SimpleCurl.php:164 | `Name: value` with a value that holds colons (such as `http://x:80/`) gives the whole value |
| SimpleCurl.EmptyValueKept | src/Client/Curl/SimpleCurl.php:164-165 | a line `Name:` gives the trimmed name with the empty value; it is not dropped |
| SimpleCurl.LineEntryOfFormatted | src/Client/Curl/SimpleCurl.php:75 | SimpleCurl reads an encoded header line back as the trimmed name and the trimmed line |
| SimpleCurl.TrimmedPairs | src/Client/Curl/SimpleCurl.php:164-165 | one pair per header, the i-th being its trimmed name and trimmed line |
| SimpleCurl.EntriesOfEncoded | src/Client/Curl/SimpleCurl.php:73-76 | reading the encoded lines gives the trimmed pairs of the headers, in order |
| SimpleCurl.ParseEncodedHeaders | src/Client/Curl/SimpleCurl.php:154-169 | round trip: parsing a CRLF-terminated block of encoded headers gives back each header's trimmed name and line, in order |
| Curl.MethodOptions | src/Client/Curl/Curl.php:68-83 | HTTPGET iff GET; POST iff POST; custom verb iff PUT or DELETE; body iff POST or PUT; no option at all for any other method |
| Curl.DefaultOptions | src/Client/Curl/Curl.php:51-62 | the seven default options include none the method switch sets; unlike SimpleCurl, response headers are not put in the returned text and redirects are not followed, while the sent header text is recorded |
| Curl.BindMethod | src/Client/Curl/Curl.php:68-83 | the switch adds exactly the method options to the handle's options and leaves it open |
| Curl.LineEntry | src/Client/Curl/Curl.php:108-112 | a line makes no pair exactly when it is empty, `"0"`, or holds no colon; no key or value of a pair holds a colon |
| Curl.ParsedHeaders | src/Client/Curl/Curl.php:103-115 | the array `parseHeaders` returns has one entry per distinct key, and no key or value holds a colon |
| Curl.ExplodeGivesLineEntry | src/Client/Curl/Curl.php:111-112 | `explode(':', $line)` of a line with a colon has at least two pieces, and pieces 0 and 1 are the pair the line makes |
| Curl.ParseHeaders | src/Client/Curl/Curl.php:103-115 | the loop computes the array of the skip-split-overwrite reading of the block, and its keys are distinct |
| Curl.Outcome | src/Client/Curl/Curl.php:85-96 | the status is the HTTP code; the body is the whole exec result (`""` for `false`); the added headers are the parsed `CURLINFO_HEADER_OUT` text, none when that is `false` |
| Curl.HeadersIgnoreReturnedText | src/Client/Curl/Curl.php:85-96 | the added headers depend only on the sent header text: changing the returned text or the header size leaves them unchanged |
| Curl.NothingParsedFromEmpty | src/Client/Curl/Curl.php:105-114 | an empty header text gives no headers |
| Curl.SendRequest | src/Client/Curl/Curl.php:41-101 | the handle holds the seven default options plus the method options; the response is `Outcome`; the handle is always closed |
| Curl.ValueStopsAtSecondColon | src/Client/Curl/Curl.php:111-112 | `Host: a:80` gives the value ` a`: the text after a second colon is lost |
| Curl.NoTrimming | src/Client/Curl/Curl.php:112 | the key is the text before the colon and the value everything after it, neither trimmed |
| Curl.LineEntryParts | src/Client/Curl/Curl.php:111-112 | for a colon-free name, the key is the name and the value is the tail up to its first colon |
| Curl.EchoedPairs | src/Client/Curl/Curl.php:111-112 | one pair per header, the i-th being its name and a space plus its line up to the first colon |
| Curl.LineEntryOfFormatted | src/Client/Curl/Curl.php:111-112 | Curl reads an encoded header line back as the name and a space plus the line up to its first colon |
| Curl.EntriesOfEncoded | src/Client/Curl/Curl.php:45-48 | reading the encoded lines gives the echoed pairs of the headers, in order |
| Curl.EntriesOfRequestBlock | src/Client/Curl/Curl.php:88 | in the outgoing header text, the request line, the closing blank line and the empty last piece contribute nothing |
| Curl.ResponseEchoesRequestHeaders | src/Client/Curl/Curl.php:85-96 | when the sent header text is a colon-free request line, these header lines and the blank line, the response gets the request's own header names, each with a space plus its line up to the first colon |
| ClientComparison.BindersAgreeOnCommonVerbs | src/Client/Curl/Curl.php:68-83 | for GET, POST, PUT and DELETE both clients set the same method options |
| ClientComparison.BindersDifferElsewhere | src/Client/Curl/Curl.php:68-83 | for any other method (PATCH included) Curl sets no method option, SimpleCurl sets the custom verb and the body |
| ClientComparison.ParsersOnEncodedLine | src/Client/Curl/Curl.php:111-112 | on `Name: line` SimpleCurl reads back `line` and Curl reads back `" " + line` |
| ClientComparison.ParsersDisagreeOnPort | src/Client/Curl/Curl.php:111-112 | on `Name: host:port` SimpleCurl keeps `host:port`, Curl keeps `" " + host` |

## Left out

- cURL itself is a foreign C library. `curl_exec`, `curl_errno`, `curl_error` and `curl_getinfo` are not run: their results are the `Transfer` input. `curl_setopt`, `curl_init` and `curl_close` are the `Handle` class. No network transfer, redirect, timeout or content decoding is modelled.
- The PSR-7/PSR-17 objects are foreign. The request is the data read from it: method, URI, `getHeaders()` names with their `getHeaderLine` lines, and body text. The response and the stream factory are not modelled. A response is its status, its body text and the `withAddedHeader` calls made on it. Any exception `withAddedHeader` might raise, for example for an empty name, is not modelled.
- `getHeaderLine` joins several values with commas. The model takes the joined line as given.
- `getUserAgent` (src/Client/Curl/SimpleCurl.php:41-44) reads the PHP version and the host OS. It is the `userAgent` parameter of `SimpleCurl.SendRequest`.
- `getTimeout` and `getEncoding` only return the constants `TIMEOUT` (10) and `ENCODING` (`"UTF-8"`). The model uses the constants directly in `DefaultOptions`.
- The constructors, `init`, `getResponseFactory` and `getStreamFactory` only store or clone the injected factories.
- `MultiCurl` and `MultiCurlInterface` are not modelled. `MultiCurl::sendMultipleRequests` forwards to a `multiRequest` method that neither `MultiCurl` nor its parent `Curl` defines, and its purpose, parallel transfers, is concurrency. `ClientException` is not modelled either: it is only a constant on a foreign exception class.
- PHP turns array keys that are decimal integer strings (such as `"42"`) into integers. Keys are modelled as strings. This changes nothing about order or overwriting.
- `parseHeaders` has a `string` type hint. In SimpleCurl the header block is always a string. In Curl, `curl_getinfo(..., CURLINFO_HEADER_OUT)` may give `false`, which PHP's coercive typing turns into `""`. Curl.php declares no strict types, and the model follows that (`CoerceToString`).
- In Curl's `parseHeaders`, every line that reaches `explode(':', $line)` holds a colon, so piece 1 always exists. The model defines the pair by slicing the line, and `Curl.ExplodeGivesLineEntry` proves that this pair equals pieces 0 and 1 of the `explode` result.
- Neither client adds a `Content-Length` line to the request headers.
- A repeated header name keeps only its last value: both parsers overwrite (`HeaderBlock.LastLineWins`).
- Both clients send DELETE as a custom verb without a body.
- Error classification (a timeout told apart from other failures) is not done by these two files, so it is not modelled.
- PHP strings are byte strings, and `CURLINFO_HEADER_SIZE` counts bytes. The model cuts a sequence of characters, one character standing for one byte, so `SimpleCurl.SplitResponse` agrees with `substr` only when every character of the returned text is one byte; multi-byte text is not modelled.
- Curl.ResponseEchoesRequestHeaders: the real `CURLINFO_HEADER_OUT` text also holds lines cURL writes itself (`Host`, `User-Agent` from `CURLOPT_USERAGENT`, `Accept`, `Accept-Encoding` from `CURLOPT_ENCODING`, and `Content-Length`/`Content-Type` for a body); the lemma covers a sent text made only of the request line, the request's encoded header lines and the blank line, so those extra lines are not covered.
- Curl.ResponseEchoesRequestHeaders: it requires a request line without a colon. A target such as `/a?t=12:30` puts a colon in the request line, and Curl then also stores a pair made from it (key `GET /a?t=12`, value `30 HTTP/1.1`); that case is only covered by `Curl.LineEntry` in general, not by this lemma.
