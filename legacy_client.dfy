/** The legacy front end `Client.fetch(url, options, callback)`: HEAD requests that
    follow at most five redirects by hand, then one GET and the legacy parser. */
module LegacyClient {
  import opened Js
  import opened Page
  import opened Metadata
  import opened Transport
  import LegacyParser
  import Client

  /** Eleven flags on; the legacy defaults have no language flag. */
  const LegacyFlags: Flags := Flags(true, true, true, true, true, true, true, true, true, true, true, false)
  const MaxRedirects: nat := 5

  // The request header set: `Accept` for any type and a generated user agent, with the
  // supplied headers merged over both.
  function HeadersFor(randomAgent: string, options: Option<Client.Options>): map<string, string> {
    var defaults := map["Accept" := "*/*", "User-Agent" := randomAgent];
    if options.Some? then defaults + options.value.httpHeaders else defaults
  }

  /** What stays fixed while redirects are chased: the client, reference resolution,
      and the header set and timeout of every request. */
  datatype Session = Session(send: Request -> Outcome, resolve: (string, string) -> string,
                             headers: map<string, string>, timeout: int)

  function Probe(s: Session, url: string): Request {
    Request(Head, url, s.headers, s.timeout, false)
  }

  /** The reply to `url` is a redirect. */
  predicate Redirects(s: Session, url: string) {
    var o := s.send(Probe(s, url));
    !TimedOut(o) && o.response.Some? && StatusType(o.response.value.status) == 3
  }

  /** The url a redirect from `url` leads to. */
  function Next(s: Session, url: string): string {
    var o := s.send(Probe(s, url));
    if o.response.Some? then s.resolve(url, o.response.value.location) else url
  }

  /** The url reached after `k` redirects from `url`. */
  function Hop(s: Session, url: string, k: nat): string
    decreases k
  {
    if k == 0 then url else Hop(s, Next(s, url), k - 1)
  }

  /** Every one of the first `k` urls reached from `url` redirects. */
  ghost predicate RedirectChain(s: Session, url: string, k: nat) {
    forall j :: 0 <= j < k ==> Redirects(s, Hop(s, url, j))
  }

  /** Where chasing from `url` ends, with `count` redirects already followed: a report,
      or the url whose HEAD succeeded. */
  datatype Chased = Failed(report: Report) | Arrived(url: string)

  function Chase(s: Session, url: string, count: nat): Chased
    requires count <= MaxRedirects
    decreases MaxRedirects - count
  {
    var o := s.send(Probe(s, url));
    if TimedOut(o) then Failed(Rejected(Message("Timeout")))
    else if o.response.None? then Failed(NoResponse(o.err))
    else if StatusType(o.response.value.status) == 3 then
      if count + 1 > MaxRedirects then Failed(Rejected(Message("Too many redirects")))
      else Chase(s, s.resolve(url, o.response.value.location), count + 1)
    else if StatusType(o.response.value.status) == 2 then Arrived(url)
    else Failed(BadStatus(o.err))
  }

  /** The GET once a HEAD succeeded, and the legacy parse of its reply. A PDF is parsed
      from the placeholder without looking at the reply at all; an HTML page with no reply,
      or an exception from the loader, escapes. */
  function Finish(env: Env, s: Session, url: string, flags: Flags, pdf: bool): Report {
    var o := s.send(Request(Get, url, s.headers, s.timeout, false));
    if o.err.Some? then Rejected(ClientError(o.err.value))
    else
      var parsed :=
        if pdf then LegacyParser.Expected(env, url, flags, Client.PdfPlaceholder, None)
        else if o.response.None? then None
        else LegacyParser.Expected(env, url, flags, o.response.value.text, Some(o.response.value.header));
      if parsed.None? then Thrown else Resolved(Extracted(parsed.value))
  }

  function SessionFor(randomAgent: string, options: Option<Client.Options>, env: Env, send: Request -> Outcome): Session {
    Session(send, env.resolve, HeadersFor(randomAgent, options), Client.TimeoutFor(options))
  }

  /** `Client.fetch(url, options, callback)`: what the callback receives. */
  function FetchSpec(url: string, options: Option<Client.Options>, randomAgent: string, env: Env,
                     send: Request -> Outcome): Report {
    var target := SplitHead(url, '#');
    if target == "" then Rejected(Message("Invalid URL"))
    else
      var s := SessionFor(randomAgent, options, env, send);
      match Chase(s, target, 0)
      case Failed(r) => r
      case Arrived(v) => Finish(env, s, v, Client.FlagsFor(LegacyFlags, options), Client.IsPdf(target))
  }

  /** `Client.fetch`, with its redirect loop: the report, and the urls probed by HEAD. */
  method Fetch(url: string, options: Option<Client.Options>, randomAgent: string, env: Env, send: Request -> Outcome)
    returns (report: Report, probed: seq<string>)
    ensures report == FetchSpec(url, options, randomAgent, env, send)
    ensures |probed| <= MaxRedirects + 1
    ensures forall j :: 0 <= j < |probed| ==> probed[j] == Hop(SessionFor(randomAgent, options, env, send), SplitHead(url, '#'), j)
    ensures SplitHead(url, '#') == "" <==> probed == []
  {
    var target := SplitHead(url, '#');
    var headers := map["Accept" := "*/*", "User-Agent" := randomAgent];
    var flags := LegacyFlags;
    var timeout := Client.DefaultTimeout;
    if options.Some? {
      headers := headers + options.value.httpHeaders;
      if options.value.httpTimeout.Some? {
        timeout := options.value.httpTimeout.value;
      }
      flags := Merge(flags, options.value.flags);
    }
    probed := [];
    if target == "" {
      return Rejected(Message("Invalid URL")), probed;
    }
    var pdf := SliceLast(target, 4) == ".pdf";
    var s := Session(send, env.resolve, headers, timeout);
    var end;
    end, probed := ChaseRedirects(s, target);
    if end.Failed? {
      return end.report, probed;
    }
    report := Retrieve(env, s, end.url, flags, pdf);
  }

  /** The HEAD loop: probe, and on a 3xx count the redirect and move to its target. */
  method ChaseRedirects(s: Session, target: string) returns (end: Chased, probed: seq<string>)
    ensures end == Chase(s, target, 0)
    ensures |probed| <= MaxRedirects + 1
    ensures forall j :: 0 <= j < |probed| ==> probed[j] == Hop(s, target, j)
    ensures 1 <= |probed|
  {
    probed := [];
    var current := target;
    var redirectCount := 0;
    while true
      invariant redirectCount <= MaxRedirects
      invariant |probed| == redirectCount
      invariant current == Hop(s, target, redirectCount)
      invariant forall j :: 0 <= j < |probed| ==> probed[j] == Hop(s, target, j)
      invariant Chase(s, target, 0) == Chase(s, current, redirectCount)
      decreases MaxRedirects - redirectCount
    {
      HopStep(s, target, redirectCount);
      probed := probed + [current];
      var o := s.send(Request(Head, current, s.headers, s.timeout, false));
      if TimedOut(o) {
        return Failed(Rejected(Message("Timeout"))), probed;
      }
      if o.response.None? {
        return Failed(NoResponse(o.err)), probed;
      }
      var status := StatusType(o.response.value.status);
      if status == 3 {
        redirectCount := redirectCount + 1;
        if redirectCount > MaxRedirects {
          return Failed(Rejected(Message("Too many redirects"))), probed;
        }
        current := s.resolve(current, o.response.value.location);
      } else if status == 2 {
        return Arrived(current), probed;
      } else {
        return Failed(BadStatus(o.err)), probed;
      }
    }
  }

  /** The GET after a successful HEAD, and the legacy parse of its reply. */
  method Retrieve(env: Env, s: Session, url: string, flags: Flags, pdf: bool) returns (report: Report)
    ensures report == Finish(env, s, url, flags, pdf)
  {
    var o := s.send(Request(Get, url, s.headers, s.timeout, false));
    if o.err.Some? {
      report := Rejected(ClientError(o.err.value));
    } else if pdf {
      var parsed := LegacyParser.ParseMeta(env, url, flags, Client.PdfPlaceholder, None);
      report := if parsed.None? then Thrown else Resolved(Extracted(parsed.value));
    } else if o.response.None? {
      report := Thrown;
    } else {
      var parsed := LegacyParser.ParseMeta(env, url, flags, o.response.value.text, Some(o.response.value.header));
      report := if parsed.None? then Thrown else Resolved(Extracted(parsed.value));
    }
  }

  /** How the GET after a successful HEAD is reported: the client's error when there is
      one; otherwise, for a PDF, the legacy parse of the placeholder at `url` with no
      header, whatever the reply; for an HTML page, the legacy parse of the reply's text
      and header, and an exception when there is no reply or the loader throws. */
  lemma FinishOutcomes(env: Env, s: Session, url: string, flags: Flags, pdf: bool)
    ensures var o := s.send(Request(Get, url, s.headers, s.timeout, false));
            o.err.Some? ==> Finish(env, s, url, flags, pdf) == Rejected(ClientError(o.err.value))
    ensures var o := s.send(Request(Get, url, s.headers, s.timeout, false));
            o.err.None? && pdf ==>
              Finish(env, s, url, flags, pdf) ==
                match env.load(Client.PdfPlaceholder)
                case None => Thrown
                case Some(doc) => Resolved(Extracted(LegacyParser.Extract(env, url, flags, doc, None)))
    ensures var o := s.send(Request(Get, url, s.headers, s.timeout, false));
            o.err.None? && !pdf && o.response.Some? ==>
              Finish(env, s, url, flags, pdf) ==
                match env.load(o.response.value.text)
                case None => Thrown
                case Some(doc) => Resolved(Extracted(LegacyParser.Extract(env, url, flags, doc, Some(o.response.value.header))))
    ensures var o := s.send(Request(Get, url, s.headers, s.timeout, false));
            o.err.None? && !pdf && o.response.None? ==> Finish(env, s, url, flags, pdf) == Thrown
  {
  }

  /** One more redirect is one more hop. */
  lemma {:induction false} HopStep(s: Session, url: string, k: nat)
    decreases k
    ensures Hop(s, url, k + 1) == Next(s, Hop(s, url, k))
  {
    if k > 0 {
      HopStep(s, Next(s, url), k - 1);
    }
  }

  /** "Too many redirects" is reported exactly when the reply to each of the remaining
      `6 - count` urls is a redirect: at most five redirects are followed. */
  lemma {:induction false} TooManyIff(s: Session, url: string, count: nat)
    requires count <= MaxRedirects
    ensures Chase(s, url, count) == Failed(Rejected(Message("Too many redirects"))) <==>
            RedirectChain(s, url, MaxRedirects + 1 - count)
    decreases MaxRedirects - count
  {
    var o := s.send(Probe(s, url));
    assert "Timeout" != "Too many redirects" by { assert "Timeout"[1] != "Too many redirects"[1]; }
    assert Hop(s, url, 0) == url;
    if Redirects(s, url) && count < MaxRedirects {
      var n := Next(s, url);
      TooManyIff(s, n, count + 1);
      forall j | 0 <= j < MaxRedirects - count ensures Hop(s, n, j) == Hop(s, url, j + 1) { }
      if RedirectChain(s, n, MaxRedirects - count) {
        forall j | 0 <= j < MaxRedirects + 1 - count ensures Redirects(s, Hop(s, url, j)) {
          if j > 0 { assert Hop(s, url, j) == Hop(s, n, j - 1); }
        }
      }
      if RedirectChain(s, url, MaxRedirects + 1 - count) {
        forall j | 0 <= j < MaxRedirects - count ensures Redirects(s, Hop(s, n, j)) {
          assert Redirects(s, Hop(s, url, j + 1));
        }
      }
    }
  }

  /** A successful chase from the start ends at one of the first six urls reached, after
      that many redirects, with a 2xx reply. */
  lemma {:induction false} ArrivalIsAHop(s: Session, url: string, count: nat)
    requires count <= MaxRedirects && Chase(s, url, count).Arrived?
    ensures exists k :: 0 <= k <= MaxRedirects - count && Chase(s, url, count).url == Hop(s, url, k) && RedirectChain(s, url, k)
    ensures var v := Chase(s, url, count).url;
            var o := s.send(Probe(s, v));
            !TimedOut(o) && o.response.Some? && StatusType(o.response.value.status) == 2
    decreases MaxRedirects - count
  {
    var o := s.send(Probe(s, url));
    if StatusType(o.response.value.status) == 3 {
      var n := Next(s, url);
      ArrivalIsAHop(s, n, count + 1);
      var k :| 0 <= k <= MaxRedirects - count - 1 && Chase(s, n, count + 1).url == Hop(s, n, k) && RedirectChain(s, n, k);
      assert Hop(s, url, k + 1) == Hop(s, n, k);
      forall j | 0 <= j < k + 1 ensures Redirects(s, Hop(s, url, j)) {
        if j > 0 { assert Hop(s, url, j) == Hop(s, n, j - 1); }
      }
    } else {
      assert Hop(s, url, 0) == url;
    }
  }

  /** An empty url, or one starting with `#`, is reported as "Invalid URL" before any
      request, and no other url is. */
  lemma InvalidUrl(url: string, options: Option<Client.Options>, randomAgent: string, env: Env, send: Request -> Outcome)
    ensures FetchSpec(url, options, randomAgent, env, send) == Rejected(Message("Invalid URL")) <==> SplitHead(url, '#') == ""
  {
    var target := SplitHead(url, '#');
    if target != "" {
      var s := SessionFor(randomAgent, options, env, send);
      ChaseNeverInvalid(s, target, 0);
    }
  }

  /** Chasing redirects fails only with "Timeout", "Too many redirects", or a report
      built from the client's error: never with "Invalid URL". */
  lemma {:induction false} ChaseNeverInvalid(s: Session, url: string, count: nat)
    requires count <= MaxRedirects
    ensures Chase(s, url, count) != Failed(Rejected(Message("Invalid URL")))
    decreases MaxRedirects - count
  {
    assert "Timeout"[0] != "Invalid URL"[0];
    assert "Too many redirects"[0] != "Invalid URL"[0];
    var o := s.send(Probe(s, url));
    if !TimedOut(o) && o.response.Some? && StatusType(o.response.value.status) == 3 && count + 1 <= MaxRedirects {
      ChaseNeverInvalid(s, s.resolve(url, o.response.value.location), count + 1);
    }
  }

  /** Supplied headers override the defaults, including the generated user agent. */
  lemma SuppliedHeadersWin(randomAgent: string, options: Option<Client.Options>, k: string)
    ensures options.Some? && k in options.value.httpHeaders ==> HeadersFor(randomAgent, options)[k] == options.value.httpHeaders[k]
    ensures (options.None? || "User-Agent" !in options.value.httpHeaders) ==> HeadersFor(randomAgent, options)["User-Agent"] == randomAgent
  {
  }

  /** The legacy defaults: every flag but language on, each supplied flag replacing its own. */
  lemma LegacyFlagDefaults(options: Option<Client.Options>, n: FlagName)
    ensures Client.FlagsFor(LegacyFlags, options).On(n) ==
      if options.Some? && n in options.value.flags then options.value.flags[n] else n != Language
  {
  }
}
