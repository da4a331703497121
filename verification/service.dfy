/**
 * The scheme-redirect middleware `RedirectSchemeService`. For each request it
 * either hands the request to the downstream service and returns that
 * service's result untouched, or builds the canonical URL (target scheme,
 * host and uri, then every configured literal rewrite in order), picks 301 or
 * 307, and turns the downstream response into a redirect to that URL.
 */
module Service {
  import opened StrReplace
  import opened Http

  /**
   * The middleware's configuration, fixed when the service is built:
   * `httpsToHttp` makes plain `http` the canonical scheme, `temporary`
   * selects 307 over 301, and `replacements` are `(pattern, replacement)`
   * pairs applied in order to the redirect URL.
   */
  datatype Policy = Policy(
    disable: bool,
    httpsToHttp: bool,
    temporary: bool,
    replacements: seq<(string, string)>)

  /** What the middleware reads from a request: the resolved scheme and host, and the uri. */
  datatype Request = Request(scheme: string, host: string, uri: string)

  /** The per-request verdict. */
  datatype Decision = PassThrough | Redirect(location: string, status: StatusCode)

  /**
   * What the future returned by `call` resolves to: the service's result, or
   * a panic when the redirect URL is not a valid header value.
   */
  datatype Reply<B> = Resolved(result: Outcome<B>) | Panicked

  /** The canonical scheme. */
  function TargetScheme(policy: Policy): string
  {
    if policy.httpsToHttp then "http" else "https"
  }

  /** The guard of `call`: disabled, or already on the canonical scheme. */
  predicate NotRedirecting(policy: Policy, req: Request): (b: bool)
    ensures b <==> policy.disable || req.scheme == TargetScheme(policy)
  {
    || policy.disable
    || (!policy.httpsToHttp && req.scheme == "https")
    || (policy.httpsToHttp && req.scheme == "http")
  }

  /** The URL before any rewrite, as `format!` builds it. */
  function RawUrl(policy: Policy, req: Request): (u: string)
    ensures u == TargetScheme(policy) + "://" + req.host + req.uri
  {
    if policy.httpsToHttp then "http://" + req.host + req.uri
    else "https://" + req.host + req.uri
  }

  /** Left fold of `ReplaceAll` over the rewrite rules: each rule sees the previous rule's output. */
  function Rewrite(url: string, rules: seq<(string, string)>): string
    decreases rules
  {
    if rules == [] then url
    else Rewrite(ReplaceAll(url, rules[0].0, rules[0].1), rules[1..])
  }

  /** The redirect status. */
  function RedirectStatus(temporary: bool): (s: StatusCode)
    ensures s == 301 || s == 307
    ensures s == 307 <==> temporary
  {
    if temporary then TemporaryRedirect else MovedPermanently
  }

  /** The redirect decision for one request. */
  function Decide(policy: Policy, req: Request): (d: Decision)
    ensures policy.disable ==> d == PassThrough
    ensures d.PassThrough? <==> policy.disable || req.scheme == TargetScheme(policy)
    ensures d.Redirect? ==> d.status == (if policy.temporary then 307 else 301)
    ensures d.Redirect? ==>
              d.location == Rewrite(TargetScheme(policy) + "://" + req.host + req.uri, policy.replacements)
    ensures d.Redirect? && policy.replacements == [] ==>
              d.location == TargetScheme(policy) + "://" + req.host + req.uri
  {
    if NotRedirecting(policy, req) then PassThrough
    else Redirect(Rewrite(RawUrl(policy, req), policy.replacements), RedirectStatus(policy.temporary))
  }

  /**
   * What `call` resolves to, given what the downstream service resolves to.
   * The redirect response is built fresh: it keeps the downstream request and
   * body, and carries the redirect status and a `Location` header only.
   */
  function Handle<B>(policy: Policy, req: Request, downstream: Outcome<B>): (reply: Reply<B>)
    ensures Decide(policy, req).PassThrough? ==> reply == Resolved(downstream)
    ensures downstream.Err? ==> reply == Resolved(downstream)
    ensures reply.Panicked? <==>
              Decide(policy, req).Redirect? && downstream.Ok? && !ValidHeaderValue(Decide(policy, req).location)
    ensures Decide(policy, req).Redirect? && downstream.Ok? && !reply.Panicked? ==>
              && reply.result.Ok?
              && reply.result.response.status == Decide(policy, req).status
              && reply.result.response.headers == map[Location := Decide(policy, req).location]
              && reply.result.response.body == downstream.response.body
              && reply.result.response.request == downstream.response.request
  {
    match Decide(policy, req)
    case PassThrough => Resolved(downstream)
    case Redirect(location, status) =>
      match downstream
      case Err(_) => Resolved(downstream)
      case Ok(res) =>
        if ValidHeaderValue(location) then
          Resolved(Ok(ServiceResponse(res.request, status, map[Location := location], res.body)))
        else
          Panicked
  }

  /** The rewrite loop: `url` is reassigned once per rule, in list order. */
  method RewriteUrl(url: string, rules: seq<(string, string)>) returns (out: string)
    ensures out == Rewrite(url, rules)
  {
    out := url;
    for i := 0 to |rules|
      invariant Rewrite(out, rules[i..]) == Rewrite(url, rules)
    {
      assert rules[i..][1..] == rules[i + 1..];
      var (pattern, replacement) := rules[i];
      out := ReplaceAll(out, pattern, replacement);
    }
  }

  /** The wrapped downstream service; `calls` counts how often it has been invoked. */
  class Downstream<B> {
    const handler: Request -> Outcome<B>
    ghost var calls: nat

    constructor (handler: Request -> Outcome<B>)
      ensures this.handler == handler && calls == 0
    {
      this.handler := handler;
      calls := 0;
    }

    method Call(req: Request) returns (res: Outcome<B>)
      modifies this
      ensures calls == old(calls) + 1
      ensures res == handler(req)
    {
      calls := calls + 1;
      res := handler(req);
    }
  }

  /** The middleware: its configuration and the service it wraps. */
  class RedirectSchemeService<B> {
    const service: Downstream<B>
    const policy: Policy

    constructor (service: Downstream<B>, policy: Policy)
      ensures this.service == service && this.policy == policy
    {
      this.service := service;
      this.policy := policy;
    }

    /**
     * Handles one request. The downstream service is invoked exactly once on
     * either path, and the result is what `Handle` prescribes for that
     * service's answer.
     */
    method Call(req: Request) returns (reply: Reply<B>)
      modifies service
      ensures service.calls == old(service.calls) + 1
      ensures reply == Handle(policy, req, service.handler(req))
    {
      if
        || policy.disable
        || (!policy.httpsToHttp && req.scheme == "https")
        || (policy.httpsToHttp && req.scheme == "http")
      {
        var res := service.Call(req);
        return Resolved(res);
      }
      var url := if policy.httpsToHttp then "http://" + req.host + req.uri
                 else "https://" + req.host + req.uri;
      url := RewriteUrl(url, policy.replacements);
      var status := if policy.temporary then TemporaryRedirect else MovedPermanently;
      var res := service.Call(req);
      match res
      case Err(_) =>
        reply := Resolved(res);
      case Ok(r) =>
        var headers: map<string, string> := map[];
        if !ValidHeaderValue(url) {
          return Panicked;
        }
        headers := headers[Location := url];
        reply := Resolved(Ok(ServiceResponse(r.request, status, headers, r.body)));
    }
  }

  /** Applying `xs` then `ys` is applying `xs + ys`. */
  lemma {:induction false} RewriteAppend(url: string, xs: seq<(string, string)>, ys: seq<(string, string)>)
    ensures Rewrite(url, xs + ys) == Rewrite(Rewrite(url, xs), ys)
    decreases xs
  {
    if xs != [] {
      assert (xs + ys)[0] == xs[0] && (xs + ys)[1..] == xs[1..] + ys;
      RewriteAppend(ReplaceAll(url, xs[0].0, xs[0].1), xs[1..], ys);
    } else {
      assert xs + ys == ys;
    }
  }

  /** Rules that replace a pattern by itself leave the URL alone. */
  lemma {:induction false} RewriteIdentityRules(url: string, rules: seq<(string, string)>)
    requires forall k :: 0 <= k < |rules| ==> rules[k].0 == rules[k].1
    ensures Rewrite(url, rules) == url
    decreases rules
  {
    if rules != [] {
      ReplaceSelf(url, rules[0].0);
      RewriteIdentityRules(url, rules[1..]);
    }
  }

  /** Rules whose non-empty patterns never occur along the way leave the URL alone. */
  lemma {:induction false} RewriteAbsentRules(url: string, rules: seq<(string, string)>)
    requires forall k :: 0 <= k < |rules| ==> rules[k].0 != [] && !Occurs(url, rules[k].0)
    ensures Rewrite(url, rules) == url
    decreases rules
  {
    if rules != [] {
      ReplaceAbsent(url, rules[0].0, rules[0].1);
      RewriteAbsentRules(url, rules[1..]);
    }
  }

  /**
   * Rules chain: with `[(a, b), (b, c)]` every original `a` ends up as `c`
   * (and so does every original `b`); other characters stay in place.
   */
  lemma RewriteChain(url: string, a: char, b: char, c: char)
    ensures var out := Rewrite(url, [([a], [b]), ([b], [c])]);
            && |out| == |url|
            && forall i :: 0 <= i < |url| ==>
                 out[i] == if url[i] == a || url[i] == b then c else url[i]
  {
    var mid := ReplaceAll(url, [a], [b]);
    ReplaceChar(url, a, b);
    ReplaceChar(mid, b, c);
    var rules := [([a], [b]), ([b], [c])];
    assert rules[1..] == [([b], [c])];
    assert Rewrite(url, rules) == Rewrite(mid, [([b], [c])]);
    assert [([b], [c])][1..] == [];
    assert Rewrite(mid, [([b], [c])]) == ReplaceAll(mid, [b], [c]);
  }

  /** A rewrite whose replacement is a valid header value keeps a valid header value valid. */
  lemma {:induction false} ReplaceKeepsValid(s: string, p: string, r: string)
    requires ValidHeaderValue(s) && ValidHeaderValue(r)
    ensures ValidHeaderValue(ReplaceAll(s, p, r))
    decreases |s|
  {
    if p == [] {
      ReplaceEmptyKeepsValid(s, r);
    } else if |s| < |p| {
    } else if s[..|p|] == p {
      ReplaceKeepsValid(s[|p|..], p, r);
      ValidHeaderValueConcat(r, ReplaceAll(s[|p|..], p, r));
    } else {
      ReplaceKeepsValid(s[1..], p, r);
      ValidHeaderValueConcat([s[0]], ReplaceAll(s[1..], p, r));
    }
  }

  lemma {:induction false} ReplaceEmptyKeepsValid(s: string, r: string)
    requires ValidHeaderValue(s) && ValidHeaderValue(r)
    ensures ValidHeaderValue(ReplaceEmpty(s, r))
  {
    if s != [] {
      ReplaceEmptyKeepsValid(s[1..], r);
      ValidHeaderValueConcat(r + [s[0]], ReplaceEmpty(s[1..], r));
      ValidHeaderValueConcat(r, [s[0]]);
    }
  }

  /** Every rule's replacement is a valid header value. */
  predicate ValidReplacements(rules: seq<(string, string)>)
  {
    forall k :: 0 <= k < |rules| ==> ValidHeaderValue(rules[k].1)
  }

  lemma {:induction false} RewriteKeepsValid(url: string, rules: seq<(string, string)>)
    requires ValidHeaderValue(url) && ValidReplacements(rules)
    ensures ValidHeaderValue(Rewrite(url, rules))
    decreases rules
  {
    if rules != [] {
      ReplaceKeepsValid(url, rules[0].0, rules[0].1);
      RewriteKeepsValid(ReplaceAll(url, rules[0].0, rules[0].1), rules[1..]);
    }
  }

  /**
   * The `unwrap` on the header value cannot fail when host, uri and every
   * replacement are valid header values: only a rewrite rule or a request
   * carrying a control character can make the redirect path panic.
   */
  lemma RedirectNeverPanics<B>(policy: Policy, req: Request, downstream: Outcome<B>)
    requires ValidHeaderValue(req.host) && ValidHeaderValue(req.uri)
    requires ValidReplacements(policy.replacements)
    ensures Handle(policy, req, downstream) != Panicked
  {
    var raw := RawUrl(policy, req);
    ValidHeaderValueConcat(req.host, req.uri);
    if policy.httpsToHttp {
      ValidHeaderValueConcat("http://", req.host + req.uri);
      assert raw == "http://" + (req.host + req.uri);
    } else {
      ValidHeaderValueConcat("https://", req.host + req.uri);
      assert raw == "https://" + (req.host + req.uri);
    }
    RewriteKeepsValid(raw, policy.replacements);
  }

  /** Plain http to https, temporary, no rules. */
  lemma ScenarioRedirectToHttps()
    ensures Decide(Policy(false, false, true, []), Request("http", "example.com", "/a?b=1"))
            == Redirect("https://example.com/a?b=1", 307)
  {
  }

  /** A request already on https passes through. */
  lemma ScenarioAlreadyHttps()
    ensures Decide(Policy(false, false, true, []), Request("https", "example.com", "/a")) == PassThrough
  {
  }

  /** https to http, permanent, with one host rewrite. */
  lemma ScenarioRewriteHost()
    ensures Decide(Policy(false, true, false, [("example.com", "other.com")]), Request("https", "example.com", "/"))
            == Redirect("http://other.com/", 301)
  {
    var policy := Policy(false, true, false, [("example.com", "other.com")]);
    var req := Request("https", "example.com", "/");
    var raw := "http://example.com/";
    assert RawUrl(policy, req) == raw;
    HostRewrite();
    assert Rewrite(raw, policy.replacements) == Rewrite("http://other.com/", []);
  }

  lemma HostRewrite()
    ensures ReplaceAll("http://example.com/", "example.com", "other.com") == "http://other.com/"
  {
    var p, r := "example.com", "other.com";
    var tail := "example.com/";
    assert tail[..|p|] == p && tail[|p|..] == "/";
    assert ReplaceAll("/", p, r) == "/";
    assert ReplaceAll(tail, p, r) == r + "/";
    ReplaceAfterPrefix("http://", tail, p, r);
    assert "http://" + tail == "http://example.com/";
    assert "http://" + (r + "/") == "http://other.com/";
  }
}
