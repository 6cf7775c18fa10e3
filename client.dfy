/** The current front end: the `Metafetch` class, its `userAgent` state and the
    decision logic of `fetch` around one GET request. */
module Client {
  import opened Js
  import opened Page
  import opened Metadata
  import opened Transport
  import Parser

  const DefaultUserAgent: string := "Mozilla/5.0 (Windows NT 10.0; Win64; x64; rv:84.0) Gecko/20100101 Firefox/84.0"
  const InvalidAgentError: string := "METAFETCH: Invalid User agent supplied"
  const AcceptHtml: string := "text/html,application/xhtml+xml,application/xml;q=0.9,image/webp,image/apng,*/*;q=0.8"
  const DefaultTimeout: int := 20000
  const PdfPlaceholder: string := "Metafetch does not support parsing PDF Content."

  /** Every flag on: the defaults of the current front end. */
  const AllFlags: Flags := Flags(true, true, true, true, true, true, true, true, true, true, true, true)

  /** The fields of an options object that `fetch` reads: `userAgent`, the `http`
      headers and timeout merged over the defaults, and the `flags`. */
  datatype Options = Options(userAgent: Val, httpHeaders: map<string, string>, httpTimeout: Option<int>,
                             flags: map<FlagName, bool>)

  /** An argument of `setUserAgent`: a string, or a value of some other type. */
  datatype Agent = Str(s: string) | NonString

  /** The flags `parseMeta` receives: the defaults with the supplied ones merged over them. */
  function FlagsFor(defaults: Flags, options: Option<Options>): Flags {
    if options.Some? then Merge(defaults, options.value.flags) else defaults
  }

  /** `options.userAgent || this.userAgent` when an options object is given. */
  function AgentFor(instanceAgent: string, options: Option<Options>): string {
    if options.Some? && Truthy(options.value.userAgent) then options.value.userAgent.value else instanceAgent
  }

  /** The request header set: the defaults, the supplied headers over them, then the
      chosen user agent over everything. */
  function HeadersFor(agent: string, options: Option<Options>): map<string, string> {
    var defaults := map["Accept" := AcceptHtml, "User-Agent" := ""];
    var merged := if options.Some? then defaults + options.value.httpHeaders else defaults;
    merged["User-Agent" := agent]
  }

  function TimeoutFor(options: Option<Options>): int {
    if options.Some? && options.value.httpTimeout.Some? then options.value.httpTimeout.value else DefaultTimeout
  }

  /** `url.slice(-4) === ".pdf"`. */
  predicate IsPdf(url: string) {
    SliceLast(url, 4) == ".pdf"
  }

  /** A url counts as a PDF exactly when it ends with `.pdf`. */
  lemma IsPdfMeansSuffix(url: string)
    ensures IsPdf(url) <==> EndsWith(url, ".pdf")
  {
    SliceLastIsSuffix(url, ".pdf");
  }

  /** The one request `fetch` sends for a valid url. */
  function RequestFor(agent: string, url: string, options: Option<Options>): Request {
    Request(Get, url, HeadersFor(agent, options), TimeoutFor(options), !IsPdf(url))
  }

  /** How `fetch` settles once the reply to its request is in. */
  function Settle(env: Env, url: string, flags: Flags, o: Outcome): Report {
    if TimedOut(o) then Rejected(Message("Timeout"))
    else if o.response.None? then NoResponse(o.err)
    else if StatusType(o.response.value.status) != 2 then BadStatus(o.err)
    else if IsPdf(url) then Resolved(Parser.Expected(env, url, flags, PdfPlaceholder, None))
    else
      var r := o.response.value;
      var parsed := Parser.Expected(env, r.requestUrl, flags, r.text, Some(r.header));
      if parsed == InvalidHtml then Rejected(Message("Invalid HTML")) else Resolved(parsed)
  }

  /** `fetch(url, options)` for an instance whose user agent is `agent`: the report,
      and the request sent (none for an invalid url). */
  function FetchSpec(agent: string, url: string, options: Option<Options>, env: Env, send: Request -> Outcome): (Report, Option<Request>) {
    var target := SplitHead(url, '#');
    if target == "" then (Rejected(Message("Invalid URL")), None)
    else
      var request := RequestFor(AgentFor(agent, options), target, options);
      (Settle(env, target, FlagsFor(AllFlags, options), send(request)), Some(request))
  }

  class Metafetch {
    var userAgent: string

    constructor()
      ensures userAgent == DefaultUserAgent
    {
      userAgent := DefaultUserAgent;
    }

    /** `setUserAgent(agent)`: a string replaces the user agent; anything else leaves
        it unchanged and throws the fixed message. */
    method SetUserAgent(agent: Agent) returns (thrown: Option<string>)
      modifies this
      ensures agent.Str? ==> userAgent == agent.s && thrown == None
      ensures agent.NonString? ==> userAgent == old(userAgent) && thrown == Some(InvalidAgentError)
    {
      if agent.Str? {
        userAgent := agent.s;
        thrown := None;
      } else {
        thrown := Some(InvalidAgentError);
      }
    }

    /** `fetch(url, options)`: the report, and the request handed to `send`. */
    method Fetch(url: string, options: Option<Options>, env: Env, send: Request -> Outcome)
      returns (report: Report, sent: Option<Request>)
      ensures (report, sent) == FetchSpec(userAgent, url, options, env, send)
    {
      var target := SplitHead(url, '#');
      var flags := AllFlags;
      var agent := userAgent;
      var headers := map["Accept" := AcceptHtml, "User-Agent" := ""];
      var timeout := DefaultTimeout;
      if options.Some? {
        headers := headers + options.value.httpHeaders;
        if options.value.httpTimeout.Some? {
          timeout := options.value.httpTimeout.value;
        }
        flags := Merge(flags, options.value.flags);
        agent := if Truthy(options.value.userAgent) then options.value.userAgent.value else agent;
      }
      if target == "" {
        return Rejected(Message("Invalid URL")), None;
      }
      headers := headers["User-Agent" := agent];
      var pdf := SliceLast(target, 4) == ".pdf";
      var request := Request(Get, target, headers, timeout, !pdf);
      sent := Some(request);
      var o := send(request);
      if TimedOut(o) {
        report := Rejected(Message("Timeout"));
      } else if o.response.None? {
        report := NoResponse(o.err);
      } else if StatusType(o.response.value.status) != 2 {
        report := BadStatus(o.err);
      } else if pdf {
        var parsed, _ := Parser.ParseMeta(env, target, flags, PdfPlaceholder, None);
        report := Resolved(parsed);
      } else {
        var r := o.response.value;
        var parsed, _ := Parser.ParseMeta(env, r.requestUrl, flags, r.text, Some(r.header));
        report := if parsed == InvalidHtml then Rejected(Message("Invalid HTML")) else Resolved(parsed);
      }
    }
  }

  /** "Invalid URL" is reported, and nothing sent, exactly when nothing is left before the first `#`. */
  lemma InvalidUrlIff(agent: string, url: string, options: Option<Options>, env: Env, send: Request -> Outcome)
    ensures FetchSpec(agent, url, options, env, send).0 == Rejected(Message("Invalid URL")) <==> SplitHead(url, '#') == ""
    ensures FetchSpec(agent, url, options, env, send).1.None? <==> SplitHead(url, '#') == ""
  {
  }

  /** A url that starts with `#`, such as `"#x"`, is invalid. */
  lemma FragmentOnlyIsInvalid(agent: string, url: string, options: Option<Options>, env: Env, send: Request -> Outcome)
    requires |url| > 0 && url[0] == '#'
    ensures FetchSpec(agent, url, options, env, send) == (Rejected(Message("Invalid URL")), None)
  {
  }

  /** The request goes to the url cut at the first `#`. */
  lemma RequestDropsFragment(agent: string, url: string, options: Option<Options>, env: Env, send: Request -> Outcome)
    requires FetchSpec(agent, url, options, env, send).1.Some?
    ensures var u := FetchSpec(agent, url, options, env, send).1.value.url;
            u <= url && '#' !in u && (|u| < |url| ==> url[|u|] == '#') && u != ""
  {
  }

  /** The user agent sent is `options.userAgent` when truthy, else the instance's
      and it wins over any `User-Agent` among the supplied headers. */
  lemma AgentPrecedence(agent: string, url: string, options: Option<Options>, env: Env, send: Request -> Outcome)
    requires FetchSpec(agent, url, options, env, send).1.Some?
    ensures var h := FetchSpec(agent, url, options, env, send).1.value.headers;
            "User-Agent" in h &&
            h["User-Agent"] == if options.Some? && Truthy(options.value.userAgent) then options.value.userAgent.value else agent
  {
  }

  /** Accept and the timeout keep their defaults unless supplied. */
  lemma RequestDefaults(agent: string, url: string, env: Env, send: Request -> Outcome)
    requires FetchSpec(agent, url, None, env, send).1.Some?
    ensures var r := FetchSpec(agent, url, None, env, send).1.value;
            r.verb == Get && r.headers == map["Accept" := AcceptHtml, "User-Agent" := agent] && r.timeout == 20000
  {
  }

  /** All twelve flags default to on, and a supplied flag changes only its own key. */
  lemma FlagDefaults(options: Option<Options>, n: FlagName)
    ensures FlagsFor(AllFlags, options).On(n) == (options.None? || n !in options.value.flags || options.value.flags[n])
  {
  }

  /** Only a 2xx reply is ever parsed: a resolved fetch had one. */
  lemma ResolvedOnlyFromSuccess(env: Env, url: string, flags: Flags, o: Outcome)
    requires Settle(env, url, flags, o).Resolved?
    ensures !TimedOut(o) && o.response.Some? && StatusType(o.response.value.status) == 2
  {
  }

  /** A `.pdf` url is never decoded or parsed: on a 2xx reply the result is that of the
      placeholder body, without headers, resolved even if it is "Invalid HTML". */
  lemma PdfUsesPlaceholder(env: Env, url: string, flags: Flags, o: Outcome)
    requires IsPdf(url) && !TimedOut(o) && o.response.Some? && StatusType(o.response.value.status) == 2
    ensures Settle(env, url, flags, o) == Resolved(Parser.Expected(env, url, flags, PdfPlaceholder, None))
  {
  }

  /** Any other url is parsed from the reply at the url the client reports, and an
      "Invalid HTML" result becomes the error. */
  lemma HtmlIsParsed(env: Env, url: string, flags: Flags, o: Outcome)
    requires !IsPdf(url) && !TimedOut(o) && o.response.Some? && StatusType(o.response.value.status) == 2
    ensures var r := o.response.value;
            Settle(env, url, flags, o) == Rejected(Message("Invalid HTML")) <==> env.load(r.text).None?
    ensures var r := o.response.value;
            env.load(r.text).Some? ==> Settle(env, url, flags, o) == Resolved(Parser.Expected(env, r.requestUrl, flags, r.text, Some(r.header)))
  {
  }
}
