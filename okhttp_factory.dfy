/**
  The request-descriptor builder of OkHttpFactory: configure the URL, the
  method name, parameters and headers; render a GET or a body-bearing
  request into the request slot; copy the headers onto it before dispatch.
 */
module OkHttpFactory {
  import opened Wrappers
  import opened LinkedMap
  import opened FormUrlEncoding
  import opened Query
  import opened HttpRequest

  const JsonContentType: string := "application/json; charset=utf-8"

  const UserAgent: string :=
    "Mozilla/5.0 (Macintosh; Intel Mac OS X 10_12_6) AppleWebKit/537.36 (KHTML, like Gecko) Chrome/63.0.3239.132 Safari/537.36"

  /** The configuration the shared client is built with. */
  datatype ClientConfig = ClientConfig(
    connectTimeoutSeconds: nat,
    writeTimeoutSeconds: nat,
    readTimeoutSeconds: nat,
    trustAllCertificates: bool,
    verifyHostnames: bool,
    retryOnConnectionFailure: bool)

  const SharedClientConfig: ClientConfig := ClientConfig(15, 20, 20, true, false, true)

  /** The process-wide static state: the lazily built shared client. */
  class ClientHolder {
    var client: Option<ClientConfig>
    /** How many times a client has been built. */
    ghost var builds: nat

    ghost predicate Valid()
      reads this
    {
      builds == if client.Some? then 1 else 0
    }

    constructor ()
      ensures Valid() && client == None && builds == 0
    {
      client := None;
      builds := 0;
    }
  }

  /** The body sendRequest computes: none in JSON mode without parameters,
      otherwise a body carrying exactly the parameters in insertion order,
      JSON with the JSON content type in JSON mode and a form otherwise. */
  function WriteBody(isJson: bool, params: seq<Entry>): (r: Option<Body>)
    ensures r.None? <==> isJson && params == []
    ensures r.Some? ==> r.value.fields == params
    ensures r.Some? ==> (r.value.JsonBody? <==> isJson)
    ensures r.Some? && r.value.JsonBody? ==> r.value.contentType == JsonContentType
  {
    if isJson then
      if params == [] then None else Some(JsonBody(JsonContentType, params))
    else
      Some(FormBody(params))
  }

  /** The verb sendRequest applies: POST, PUT or DELETE with the body when
      the method name is exactly that string, nothing otherwise (an unset
      method included), in which case the body is dropped. */
  function WriteVerb(methodName: Option<string>, body: Option<Body>): (r: Verb)
    ensures r.Post? <==> methodName == Some("POST")
    ensures r.Put? <==> methodName == Some("PUT")
    ensures r.Delete? <==> methodName == Some("DELETE")
    ensures r.NoVerb? <==> methodName !in {Some("POST"), Some("PUT"), Some("DELETE")}
    ensures !r.NoVerb? ==> !r.Get? && r.body == body
  {
    if methodName == Some("POST") then Post(body)
    else if methodName == Some("PUT") then Put(body)
    else if methodName == Some("DELETE") then Delete(body)
    else NoVerb
  }

  /** sendGet's string building: the URL, then, if there are parameters,
      '?' and each encoded pair followed by '&', with the last character
      deleted. The result is the GET URL: the bare URL without parameters,
      otherwise the URL, '?' and the parameters joined by '&'. */
  method SpliceGetUrl(u: string, ps: seq<Entry>) returns (splice: string)
    ensures splice == GetUrl(u, ps)
  {
    splice := u;
    if ps != [] {
      splice := splice + "?";
      for i := 0 to |ps|
        invariant splice == Spliced(u, PairsUpTo(ps, i))
      {
        var key, value := Encode(ps[i].key), Encode(ps[i].value);
        SplicedStep(u, ps, i, key, value);
        splice := splice + key + "=" + value + "&";
      }
      SplicedDropLast(u, ps);
      splice := splice[..|splice| - 1];
    }
  }

  class OkHttpFactory {
    /** The rendered request; None until sendGet or sendRequest runs. */
    var request: Option<Request>
    /** The header and parameter maps; [] stands for a map not created yet,
        since a map is created by its first put and never emptied. */
    var headerMap: seq<Entry>
    var paramMap: seq<Entry>
    var url: Option<string>
    var methodName: Option<string>

    ghost predicate Valid()
      reads this
    {
      DistinctKeys(headerMap) && DistinctKeys(paramMap)
    }

    /** The private constructor: the first builder in the process builds the
        shared client and, alone among builders, starts with a User-Agent
        header; every later builder starts with no headers. */
    constructor (g: ClientHolder)
      requires g.Valid()
      modifies g
      ensures Valid() && g.Valid()
      ensures request == None && paramMap == [] && url == None && methodName == None
      ensures headerMap == if old(g.client).None? then [Entry("User-Agent", UserAgent)] else []
      ensures g.client == if old(g.client).None? then Some(SharedClientConfig) else old(g.client)
      ensures g.builds == if old(g.client).None? then old(g.builds) + 1 else old(g.builds)
    {
      request := None;
      headerMap := [];
      paramMap := [];
      url := None;
      methodName := None;
      new;
      if g.client.None? {
        g.client := Some(SharedClientConfig);
        g.builds := g.builds + 1;
        AddHeader("User-Agent", UserAgent);
      }
    }

    method Url(u: string)
      requires Valid()
      modifies this
      ensures Valid()
      ensures url == Some(u)
      ensures methodName == old(methodName) && paramMap == old(paramMap)
      ensures headerMap == old(headerMap) && request == old(request)
    {
      url := Some(u);
    }

    method Method(m: string)
      requires Valid()
      modifies this
      ensures Valid()
      ensures methodName == Some(m)
      ensures url == old(url) && paramMap == old(paramMap)
      ensures headerMap == old(headerMap) && request == old(request)
    {
      methodName := Some(m);
    }

    method AddParam(key: string, value: string)
      requires Valid()
      modifies this
      ensures Valid()
      ensures paramMap == LinkedMap.Put(old(paramMap), key, value)
      ensures url == old(url) && methodName == old(methodName)
      ensures headerMap == old(headerMap) && request == old(request)
    {
      PutKeepsDistinct(paramMap, key, value);
      paramMap := LinkedMap.Put(paramMap, key, value);
    }

    method AddHeader(key: string, value: string)
      requires Valid()
      modifies this
      ensures Valid()
      ensures headerMap == LinkedMap.Put(old(headerMap), key, value)
      ensures url == old(url) && methodName == old(methodName)
      ensures paramMap == old(paramMap) && request == old(request)
    {
      PutKeepsDistinct(headerMap, key, value);
      headerMap := LinkedMap.Put(headerMap, key, value);
    }

    /** Renders a GET request on the URL with the query string. */
    method SendGet()
      requires Valid() && url.Some?
      modifies this
      ensures Valid()
      ensures url == old(url) && methodName == old(methodName)
      ensures paramMap == old(paramMap) && headerMap == old(headerMap)
      ensures request == Some(Request(Get, GetUrl(url.value, paramMap), []))
    {
      var splice := SpliceGetUrl(url.value, paramMap);
      request := Some(Request(Get, splice, []));
    }

    /** Renders a POST, PUT or DELETE request on the raw URL: chooses the
        body, builds a form body field by field, then applies the verb the
        method name selects. */
    method SendRequest(isJson: bool)
      requires Valid() && url.Some?
      modifies this
      ensures Valid()
      ensures url == old(url) && methodName == old(methodName)
      ensures paramMap == old(paramMap) && headerMap == old(headerMap)
      ensures request == Some(Request(WriteVerb(methodName, WriteBody(isJson, paramMap)), url.value, []))
    {
      var ps := paramMap;
      var requestBody: Option<Body> := None;
      if isJson {
        if ps != [] {
          requestBody := Some(JsonBody(JsonContentType, ps));
        }
      } else {
        var fields: seq<Entry> := [];
        for i := 0 to |ps|
          invariant fields == ps[..i]
        {
          fields := fields + [ps[i]];
        }
        assert ps[..|ps|] == ps;
        requestBody := Some(FormBody(fields));
      }
      var verb := NoVerb;
      if methodName == Some("POST") {
        verb := Post(requestBody);
      } else if methodName == Some("PUT") {
        verb := Put(requestBody);
      } else if methodName == Some("DELETE") {
        verb := Delete(requestBody);
      }
      request := Some(Request(verb, url.value, []));
    }

    /** Adds every header, in insertion order, to the rendered request. With
        no request rendered yet the first add fails and the failure is
        swallowed, so nothing changes. */
    method SetHeader()
      requires Valid()
      modifies this
      ensures Valid()
      ensures request == if old(request).Some?
        then Some(old(request).value.(headers := old(request).value.headers + headerMap))
        else None
      ensures url == old(url) && methodName == old(methodName)
      ensures paramMap == old(paramMap) && headerMap == old(headerMap)
    {
      var hs := headerMap;
      if hs != [] && request.Some? {
        var r := request.value;
        for i := 0 to |hs|
          invariant r == old(request).value.(headers := old(request).value.headers + hs[..i])
        {
          assert hs[..i + 1] == hs[..i] + [hs[i]];
          r := r.(headers := r.headers + [hs[i]]);
        }
        assert hs[..|hs|] == hs;
        request := Some(r);
      } else if request.Some? {
        assert request.value.headers + hs == request.value.headers;
      }
    }
  }

  /** OkHttpFactory.builder(): a new builder. */
  method Builder(g: ClientHolder) returns (f: OkHttpFactory)
    requires g.Valid()
    modifies g
    ensures fresh(f) && f.Valid() && g.Valid()
    ensures f.request == None && f.paramMap == [] && f.url == None && f.methodName == None
    ensures f.headerMap == if old(g.client).None? then [Entry("User-Agent", UserAgent)] else []
    ensures g.client == if old(g.client).None? then Some(SharedClientConfig) else old(g.client)
  {
    f := new OkHttpFactory(g);
  }

  /** Two builders in one process: only the first builds the client and
      carries the User-Agent header; the second starts with empty maps. */
  method TwoBuilders(g: ClientHolder) returns (first: OkHttpFactory, second: OkHttpFactory)
    requires g.Valid() && g.client == None
    modifies g
    ensures first.headerMap == [Entry("User-Agent", UserAgent)] && first.paramMap == []
    ensures second.headerMap == [] && second.paramMap == []
    ensures g.client == Some(SharedClientConfig) && g.builds == 1
  {
    first := Builder(g);
    second := Builder(g);
  }

  /** The documented call order: configure, render, then copy the headers
      just before dispatch. The GET render's URL is returned as getUrl; the
      later POST render replaces that request. */
  method ConfigureRenderDispatch(g: ClientHolder, u: string) returns (f: OkHttpFactory, getUrl: string)
    requires g.Valid() && g.client.Some?
    modifies g
    ensures getUrl == u + "?a=1&b=2"
    ensures f.request == Some(Request(Post(Some(FormBody([Entry("a", "1"), Entry("b", "2")]))), u,
                                      [Entry("Content-Type", JsonContentType)]))
  {
    f := Builder(g);
    f.Url(u);
    f.Method("POST");
    f.AddParam("a", "1");
    assert f.paramMap == [Entry("a", "1")];
    f.AddParam("b", "2");
    assert "b" !in Keys([Entry("a", "1")]);
    assert f.paramMap == [Entry("a", "1"), Entry("b", "2")];
    f.AddHeader("Content-Type", JsonContentType);
    f.SendGet();
    TwoParamGetUrl(u);
    getUrl := f.request.value.url;
    f.SendRequest(false);
    f.SetHeader();
  }
}
