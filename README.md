# OkHttpFactory request builder, modelled in Dafny

`OkHttpFactory` is a fluent builder around OkHttp. A caller sets a URL and a
method name and adds parameters and headers. These go into two
insertion-ordered `LinkedHashMap`s. The caller then renders the request:

- `sendGet` builds a GET URL with a percent-encoded query string.
- `sendRequest(isJson)` builds a POST, PUT or DELETE request with a JSON or form body.

Just before dispatch, `setHeader` copies the headers onto the rendered request.
A private constructor builds the process-wide HTTP client once. The builder
that performs that one-time initialisation also gets a `User-Agent` header.

The model keeps the builder's imperative shape. Class `OkHttpFactory.OkHttpFactory`
has these fields:

- `url` and `methodName`: `Option<string>`, where `None` is Java's `null`.
- `paramMap` and `headerMap`: `seq<Entry>` in iteration order.
- `request`: `Option<Request>`, a value model of OkHttp's `Request.Builder`.

The methods update these fields and state the whole new state. The loops of the
source (the query-string builder, the form-body loop, the header loop) are
`for` loops with invariants. Each loop is proved against a specification
function, and the source's promises are proved about those functions:

- `LinkedMap`: `LinkedHashMap.put`, where the last write wins and an existing
  key keeps its place. `Get` serves as the reference lookup.
- `FormUrlEncoding`: `URLEncoder.encode(s, "UTF-8")`, following URLEncoder's
  own rules. ASCII letters, digits and `.-*_` pass through unchanged. A space
  becomes `+`. Every other character becomes its UTF-8 bytes, each written as
  `%XX` with upper-case hex digits. A line break is written as its one byte,
  `%0A`. A decoder is defined beside the encoder and
  proved to be its inverse. The decoder is strict: it accepts only upper-case
  hex digits and only shortest-form UTF-8, and every byte sequence it accepts
  is exactly the UTF-8 of what it returns. So the round trip fixes the escapes
  and the UTF-8 bytes that the encoder writes.
- `Query`: the GET URL and the parse-back of its query string.
- `HttpRequest`: the rendered request and its bodies, as values.
- `OkHttpFactory`: the builder class, `ClientHolder` (the static
  `okHttpClient` field), and the body and verb selection of `sendRequest`.

A `null` map is modelled as the empty sequence. A map is created by its first
`put` and nothing ever removes an entry. So `paramMap != null` in the source
holds exactly when the sequence is non-empty.

Behaviours of the code a reader may not expect:

- Only the first builder in a process gets the `User-Agent` header. The header
  is added inside the one-time client initialisation. Every later builder
  starts with no headers.
- A method name other than exactly `POST`, `PUT` or `DELETE` selects no verb.
  This includes an unset method and lower-case names. The computed body is
  then dropped.
- The form body keeps the parameters in insertion order.
- If encoding a key or value fails, the `catch` at OkHttpFactory.java:108-110
  swallows the exception and `deleteCharAt` at line 111 still removes the last
  character. The query is then cut short without notice: after
  `addParam("a", null)` the GET URL is `url?a`, and later parameters are lost.
  With the UTF-8 charset this happens exactly when a key or value is `null`.
  The model has no null keys or values, so it does not take this path.
- `setHeader` on a builder with no rendered request fails on its first
  `addHeader`. The failure is caught and ignored, so nothing changes. It is
  modelled as a no-op rather than as a precondition.

## Model

| member | source | states |
|---|---|---|
| LinkedMap.Put | src/main/java/com/liangzhicheng/OkHttpFactory.java:75 | `put` on an insertion-ordered map: an existing key keeps its position and takes the new value, every other entry is unchanged; a new key is appended at the end |
| LinkedMap.PutGet | src/main/java/com/liangzhicheng/OkHttpFactory.java:89 | last write wins: after `put(k, v)` the key k maps to v and every other key maps to what it mapped to before |
| LinkedMap.PutKeepsDistinct | src/main/java/com/liangzhicheng/OkHttpFactory.java:71-77 | `put` keeps every key unique, so the map stays a map |
| LinkedMap.PutKeys | src/main/java/com/liangzhicheng/OkHttpFactory.java:85-91 | the key order after `put` is the old order, with k appended only if it was absent |
| FormUrlEncoding.Utf8 | src/main/java/com/liangzhicheng/OkHttpFactory.java:103 | a character becomes 1 to 4 UTF-8 bytes: one exactly below U+0080 (equal to the character's code), two below U+0800, three below U+10000, four above |
| FormUrlEncoding.EncodeChar | src/main/java/com/liangzhicheng/OkHttpFactory.java:103-105 | one character encodes to 1 to 12 characters, and to a single one exactly when it is unreserved or a space |
| FormUrlEncoding.Encode | src/main/java/com/liangzhicheng/OkHttpFactory.java:103-105 | an encoding is at least as long as its input and at most 12 times as long |
| FormUrlEncoding.EncodeAlphabet | src/main/java/com/liangzhicheng/OkHttpFactory.java:103-105 | every character of an encoding is unreserved, `+` or `%` |
| FormUrlEncoding.EncodeUnreserved | src/main/java/com/liangzhicheng/OkHttpFactory.java:103-105 | a string of ASCII letters, digits and `.-*_` is its own encoding |
| FormUrlEncoding.DecodeEncode | src/main/java/com/liangzhicheng/OkHttpFactory.java:103-105 | decoding the encoding of any string gives the string back |
| FormUrlEncoding.EncodeInjective | src/main/java/com/liangzhicheng/OkHttpFactory.java:103-105 | two different keys or values never encode to the same text |
| FormUrlEncoding.Utf8DecodeExact | src/main/java/com/liangzhicheng/OkHttpFactory.java:103 | any byte sequence the UTF-8 decoder accepts is exactly the UTF-8 of the string it returns, so only shortest-form UTF-8 of scalar values is accepted |
| FormUrlEncoding.Utf8RoundTrip | src/main/java/com/liangzhicheng/OkHttpFactory.java:103 | UTF-8 decoding of a string's UTF-8 bytes gives the string back |
| FormUrlEncoding.UnescapeEncode | src/main/java/com/liangzhicheng/OkHttpFactory.java:103-105 | undoing the `+` and `%XX` escapes of an encoding gives exactly the UTF-8 bytes of the input |
| FormUrlEncoding.EncodeLineBreak | src/main/java/com/liangzhicheng/OkHttpFactory.java:103-105 | a line break encodes to the single escape `%0A` |
| FormUrlEncoding.EncodeSample | src/main/java/com/liangzhicheng/OkHttpFactory.java:103 | a space, `é` and `&` encode to `+%C3%A9%26` |
| Query.EncodeHasNoDelimiters | src/main/java/com/liangzhicheng/OkHttpFactory.java:103-106 | an encoded key or value never contains `&`, `=` or `?` |
| Query.SplitJoin | src/main/java/com/liangzhicheng/OkHttpFactory.java:102-107 | splitting a `&`-joined list on `&` gives back the list when no piece contains `&` |
| Query.QueryRoundTrip | src/main/java/com/liangzhicheng/OkHttpFactory.java:98-113 | with n >= 1 parameters the query splits on `&` into exactly n pieces; the i-th piece is the i-th parameter's encoded `key=value` with exactly one `=`; decoding the pieces gives the parameters in insertion order |
| Query.GetUrlShape | src/main/java/com/liangzhicheng/OkHttpFactory.java:97-113 | with no parameters the GET URL is exactly the URL, with no `?`; otherwise it is the URL, then `?`, then a query with no `?` that reads back as exactly the parameters |
| Query.SplicedStep | src/main/java/com/liangzhicheng/OkHttpFactory.java:102-107 | appending one encoded pair and `&` to the text built so far extends it by that parameter |
| Query.TwoParamGetUrl | src/main/java/com/liangzhicheng/OkHttpFactory.java:97-113 | parameters a=1 and b=2 render as the URL followed by `?a=1&b=2`, with no trailing `&` |
| OkHttpFactory.SpliceGetUrl | src/main/java/com/liangzhicheng/OkHttpFactory.java:98-112 | the loop that appends `?`, then each encoded pair followed by `&`, then deletes the last character, produces the GET URL: the URL and `?` and the pairs joined by `&` in insertion order, or the bare URL when there are no parameters |
| OkHttpFactory.WriteBody | src/main/java/com/liangzhicheng/OkHttpFactory.java:124-136 | no body exactly in JSON mode without parameters; otherwise the body carries exactly the parameters in insertion order; it is JSON with content type `application/json; charset=utf-8` in JSON mode and a form otherwise, which is empty when there are no parameters |
| OkHttpFactory.WriteVerb | src/main/java/com/liangzhicheng/OkHttpFactory.java:137-144 | POST, PUT or DELETE exactly when the method name is exactly that string, and then with the computed body; any other or unset method name applies no verb |
| OkHttpFactory.OkHttpFactory.SendGet | src/main/java/com/liangzhicheng/OkHttpFactory.java:97-115 | replaces any earlier rendered request with a GET on the GET URL, with no headers; nothing else changes |
| OkHttpFactory.OkHttpFactory.SendRequest | src/main/java/com/liangzhicheng/OkHttpFactory.java:123-147 | replaces any earlier rendered request with the selected verb and body on the raw URL, with no query string and no headers; nothing else changes |
| OkHttpFactory.OkHttpFactory.SetHeader | src/main/java/com/liangzhicheng/OkHttpFactory.java:286-296 | appends one header per header-map entry to the rendered request, in insertion order; adds nothing when no header was added; changes nothing when no request is rendered |
| OkHttpFactory.OkHttpFactory.AddParam | src/main/java/com/liangzhicheng/OkHttpFactory.java:71-77 | the parameter map becomes `put(old, key, value)` and stays a map; url, method, header map and request are untouched |
| OkHttpFactory.OkHttpFactory.AddHeader | src/main/java/com/liangzhicheng/OkHttpFactory.java:85-91 | the header map becomes `put(old, key, value)` and stays a map; url, method, parameter map and request are untouched |
| OkHttpFactory.OkHttpFactory.Url | src/main/java/com/liangzhicheng/OkHttpFactory.java:50-53 | sets the URL and nothing else |
| OkHttpFactory.OkHttpFactory.Method | src/main/java/com/liangzhicheng/OkHttpFactory.java:60-63 | sets the method name and nothing else |
| OkHttpFactory.OkHttpFactory.constructor | src/main/java/com/liangzhicheng/OkHttpFactory.java:216-233 | the shared client goes from unset to the 15/20/20-second, trust-all, retrying configuration at most once and is never reset; only the builder that builds it starts with the User-Agent header; every builder starts with no parameters, URL, method or request |
| OkHttpFactory.ClientHolder.constructor | src/main/java/com/liangzhicheng/OkHttpFactory.java:26 | the shared client starts unset |
| OkHttpFactory.Builder | src/main/java/com/liangzhicheng/OkHttpFactory.java:41-43 | returns a fresh builder in the constructor's initial state |
| OkHttpFactory.TwoBuilders | src/main/java/com/liangzhicheng/OkHttpFactory.java:216-233 | of two builders created in a fresh process, only the first carries the User-Agent header; the client is built once |
| OkHttpFactory.ConfigureRenderDispatch | src/main/java/com/liangzhicheng/Test.java:8-25 | configure, render, then copy the headers: the returned GET render URL is `url?a=1&b=2`; the later POST form render replaces that request, and the header is added once |

## Left out

- `sync()`, `async()` and `async(ICallback)` are not modelled. They are network I/O through OkHttp, and `sync()` returns a library object's `toString()`. Only `setHeader`, which all three call first, is modelled.
- The shared `Semaphore` and `getSemaphoreInstance` are not modelled. They exist only for cross-thread signalling.
- The client is reduced to a recorded configuration and a build counter. The trust manager, the `SSLContext`, the socket factory and the hostname verifier are foreign library configuration.
- The concurrency of the lazy initialisation is not modelled. The `volatile` field and the double-checked `synchronized` block become a single sequential check.
- The JSON text from `JSONUtil.toJsonStr` is not produced. The body records the entries it is made from. The same holds for the internal form encoding of `FormBody`.
- OkHttp's own validation is not modelled. This covers URL parsing and canonicalisation in `Request.Builder.url`, rejection of a null body for POST and PUT, and header name and value checks in `addHeader`. OkHttp's default verb (GET) is modelled as `NoVerb`.
- Strings are sequences of Unicode scalar values. A Java string holding an unpaired UTF-16 surrogate is outside the model.
- Keys and values are never null. Java's map accepts null. A null key or value in the parameter map makes `sendGet` throw inside its loop. The `catch` at OkHttpFactory.java:108-110 swallows the exception and `deleteCharAt` then drops the last character of the partial query, so it ends mid-pair and every later parameter is lost (`url?a` for `addParam("a", null)`). The model has no null keys or values, so it does not model this truncation.
- OkHttpFactory.OkHttpFactory.SendGet and OkHttpFactory.OkHttpFactory.SendRequest require a URL to have been set. With no URL the source throws a `NullPointerException` (in `new StringBuilder(url)` and in OkHttp's `url(null)`), and that throw is not modelled.
- The fluent `return this` is not modelled. A chain of calls is a sequence of method calls on one object.
