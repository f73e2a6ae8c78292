/** The upgrading transport: a round tripper that rewrites plain http requests to
    preloaded hosts into https requests and hands every request to a base round tripper. */
module Transport {
  import opened GoStrings
  import opened Hsts

  /** The parts of a request URL the transport reads or writes: the scheme, the host
      split into hostname and port (what url.URL.Hostname and url.URL.Port return),
      and the rest of the URL, which the transport never looks at. */
  datatype Url = Url(scheme: string, hostname: string, port: string, path: string, rawQuery: string)

  /** An underlying round tripper (http.RoundTripper); only its identity matters here. */
  class RoundTripper {
    constructor ()
    {
    }
  }

  /** An outgoing request (http.Request) with the fields the transport preserves;
      `verb` is the request method. */
  class Request {
    var verb: string
    var url: Url
    var header: map<string, seq<string>>
    var body: string

    constructor (verb: string, url: Url, header: map<string, seq<string>>, body: string)
      ensures this.verb == verb && this.url == url && this.header == header && this.body == body
    {
      this.verb := verb;
      this.url := url;
      this.header := header;
      this.body := body;
    }

    /** Request.WithContext with the request's own context: a new request with the same
        fields, its URL a copy of the original's. */
    constructor WithContext(req: Request)
      ensures verb == req.verb && url == req.url && header == req.header && body == req.body
    {
      verb := req.verb;
      url := req.url;
      header := req.header;
      body := req.body;
    }
  }

  /** The rewrite condition: a plain http request, on no port or the default port 80
      (compared as strings), to a host on the preload list. */
  ghost predicate Upgrades(list: PreloadList, toAscii: string -> string, u: Url)
  {
    u.scheme == "http" && (u.port == "" || u.port == "80") && Preloaded(list, toAscii, u.hostname)
  }

  class Transport {
    /** The base round tripper; null stands for http.DefaultTransport. */
    const base: RoundTripper?

    constructor (base: RoundTripper?)
      ensures this.base == base
    {
      this.base := base;
    }

    /** RoundTrip decides which request is handed over and to which round tripper: a
        request that meets the rewrite condition is copied and the copy gets scheme
        https and the bare hostname; any other request is handed over as it is. The
        caller's request is never written. */
    method RoundTrip(req: Request, list: PreloadList, toAscii: string -> string, defaultTransport: RoundTripper)
      returns (chosen: RoundTripper, sent: Request)
      ensures Upgrades(list, toAscii, req.url) ==>
        fresh(sent) &&
        sent.url == req.url.(scheme := "https", port := "") &&
        sent.verb == req.verb && sent.header == req.header && sent.body == req.body
      ensures !Upgrades(list, toAscii, req.url) ==> sent == req
      ensures base != null ==> chosen == base
      ensures base == null ==> chosen == defaultTransport
    {
      var hostname := req.url.hostname;
      var port := req.url.port;
      sent := req;
      if req.url.scheme == "http" && (port == "" || port == "80") {
        var preloaded := IsPreloaded(list, toAscii, hostname);
        if preloaded {
          sent := new Request.WithContext(req);
          sent.url := sent.url.(scheme := "https");
          sent.url := sent.url.(port := "");
        }
      }
      chosen := defaultTransport;
      if base != null {
        chosen := base;
      }
    }
  }

  /** A rewritten URL, whatever it was before, has scheme https and so never meets the
      rewrite condition again: one upgrading transport wrapped around another upgrades
      a request at most once. */
  lemma UpgradedRequestIsFinal(list: PreloadList, toAscii: string -> string, u: Url)
    ensures !Upgrades(list, toAscii, u.(scheme := "https", port := ""))
  {
  }
}
