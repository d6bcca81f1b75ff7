/**
 * How the proxy decides where a request goes: the target URL built from the
 * query (either the `url` parameter or `path` plus the remaining parameters on
 * the scheduler host) and the host allow-list in front of the upstream fetch.
 */
module ProxyRequest {
  import opened Wrappers
  import opened JsStrings
  import opened UriEncoding

  /** One query parameter, in the order `Object.entries(req.query)` lists them. */
  datatype Param = Param(key: string, value: string)

  /** `req.query[key]`: the value of the parameter with that name. */
  function QueryValue(query: seq<Param>, key: string): (r: Option<string>)
    ensures r.Some? ==> Param(key, r.value) in query
    ensures r.None? ==> forall i :: 0 <= i < |query| ==> query[i].key != key
  {
    if query == [] then None
    else if query[0].key == key then Some(query[0].value)
    else
      var r := QueryValue(query[1..], key);
      assert forall i :: 1 <= i < |query| ==> query[i] == query[1..][i - 1];
      r
  }

  /** The host every built URL goes to. */
  const SchedulerHost: string := "schedulerzrh.aitcloud.de"

  /** The start of every built URL. */
  const Base: string := "http://" + SchedulerHost + "/"

  /** `.replace(/^\/+/, '')`: all leading slashes removed. */
  function StripLeadingSlashes(s: string): (r: string)
    ensures r == [] || r[0] != '/'
    ensures |r| <= |s| && s == s[..|s| - |r|] + r
    ensures forall i :: 0 <= i < |s| - |r| ==> s[i] == '/'
  {
    if s != [] && s[0] == '/' then
      var r := StripLeadingSlashes(s[1..]);
      assert s == [s[0]] + s[1..];
      r
    else s
  }

  /** The parameters other than `path` and `url`. */
  predicate IsExtra(p: Param) {
    p.key != "path" && p.key != "url"
  }

  /** `.filter(([k]) => !['path', 'url'].includes(k))` */
  function ExtraParams(query: seq<Param>): (r: seq<Param>)
    ensures |r| <= |query|
    ensures forall i :: 0 <= i < |r| ==> IsExtra(r[i])
  {
    if query == [] then []
    else (if IsExtra(query[0]) then [query[0]] else []) + ExtraParams(query[1..])
  }

  /** The extra parameters are exactly the query's parameters other than `path` and `url`. */
  lemma {:induction false} ExtraParamsExactly(query: seq<Param>, p: Param)
    ensures p in ExtraParams(query) <==> p in query && IsExtra(p)
  {
    if query != [] {
      ExtraParamsExactly(query[1..], p);
      assert query == [query[0]] + query[1..];
    }
  }

  /** The filter works piece by piece, so it keeps the query's order. */
  lemma {:induction false} ExtraParamsConcat(a: seq<Param>, b: seq<Param>)
    ensures ExtraParams(a + b) == ExtraParams(a) + ExtraParams(b)
    decreases |a|
  {
    if a == [] {
      assert a + b == b;
    } else {
      var head := if IsExtra(a[0]) then [a[0]] else [];
      assert (a + b)[0] == a[0] && (a + b)[1..] == a[1..] + b;
      ExtraParamsConcat(a[1..], b);
      assert ExtraParams(a + b) == head + (ExtraParams(a[1..]) + ExtraParams(b));
    }
  }

  /** A single parameter is kept exactly when it is neither `path` nor `url`. */
  lemma ExtraParamsSingle(p: Param)
    ensures ExtraParams([p]) == if IsExtra(p) then [p] else []
  {
    assert [p][1..] == [];
  }

  /** `${encodeURIComponent(k)}=${encodeURIComponent(v)}` */
  function QueryPair(p: Param): string {
    EncodeUriComponent(p.key) + "=" + EncodeUriComponent(p.value)
  }

  /** The encoded pairs, in order. */
  function QueryPairs(params: seq<Param>): (pairs: seq<string>)
    ensures |pairs| == |params|
    ensures forall i :: 0 <= i < |params| ==> pairs[i] == QueryPair(params[i])
  {
    seq(|params|, i requires 0 <= i < |params| => QueryPair(params[i]))
  }

  /** `extra`: the encoded pairs joined by `&`. */
  function ExtraQuery(query: seq<Param>): string {
    Join(QueryPairs(ExtraParams(query)), "&")
  }

  /** What the request asks for: the `url` parameter, decoded by
      `decodeURIComponent` before it is used, or a URL built on the scheduler host. */
  datatype Target = UrlParam(encoded: string) | Built(url: string)

  /** `targetUrl` in path mode. */
  function BuiltUrl(query: seq<Param>): string {
    var extra := ExtraQuery(query);
    Base + RawPath(query) + (if extra != "" then "?" + extra else "")
  }

  /** The target: `req.query.url` when it is present and not empty, else the built URL. */
  function TargetOf(query: seq<Param>): (t: Target)
    ensures t.UrlParam? <==> QueryValue(query, "url").Some? && QueryValue(query, "url").value != ""
    ensures t.UrlParam? ==> t.encoded == QueryValue(query, "url").value
    ensures t.Built? ==> t.url == BuiltUrl(query)
  {
    var url := QueryValue(query, "url");
    if url.Some? && url.value != "" then UrlParam(url.value) else Built(BuiltUrl(query))
  }

  /** An encoded pair is the encoded key, `=`, and the encoded value; neither
      half holds `&` or `=`, so the first `=` separates them. */
  lemma QueryPairHalves(p: Param)
    ensures var e := QueryPair(p);
            var k := EncodeUriComponent(p.key);
            && IndexOf(e, '=') == |k| && e[..|k|] == k && e[|k| + 1..] == EncodeUriComponent(p.value)
            && Free(e, '&')
  {
    var k := EncodeUriComponent(p.key);
    var v := EncodeUriComponent(p.value);
    EncodedIsSafe(p.key);
    EncodedIsSafe(p.value);
    var e := QueryPair(p);
    assert e == k + ['='] + v;
    IndexOfAfterPrefix(k, '=', v);
    assert e[..|k|] == k && e[|k| + 1..] == v;
    assert Free(e, '&') by {
      assert forall i :: 0 <= i < |e| ==> e[i] == (if i < |k| then k[i] else if i == |k| then '=' else v[i - |k| - 1]);
    }
  }

  /** The query string is empty exactly when there are no extra parameters:
      every pair holds at least its `=`. */
  lemma ExtraQueryEmpty(query: seq<Param>)
    ensures ExtraQuery(query) == "" <==> ExtraParams(query) == []
  {
    var pairs := QueryPairs(ExtraParams(query));
    if |pairs| == 1 {
      assert ExtraQuery(query) == pairs[0];
      assert |QueryPair(ExtraParams(query)[0])| > 0;
    } else if |pairs| > 1 {
      JoinCons(pairs[0], pairs[1..], "&");
      assert [pairs[0]] + pairs[1..] == pairs;
    }
  }

  /** Splitting the query string at `&` gives the encoded pairs back, in order,
      and each splits at its first `=` into the encoded key and value. */
  lemma ExtraQuerySplitsBack(query: seq<Param>)
    requires ExtraParams(query) != []
    ensures var params := ExtraParams(query);
            Split(ExtraQuery(query), '&') == QueryPairs(params)
    ensures var params := ExtraParams(query);
            forall i :: 0 <= i < |params| ==>
              var e := QueryPairs(params)[i];
              var k := EncodeUriComponent(params[i].key);
              IndexOf(e, '=') == |k| && e[..|k|] == k && e[|k| + 1..] == EncodeUriComponent(params[i].value)
  {
    var params := ExtraParams(query);
    var pairs := QueryPairs(params);
    forall i | 0 <= i < |params|
      ensures Free(pairs[i], '&')
      ensures var k := EncodeUriComponent(params[i].key);
              IndexOf(pairs[i], '=') == |k| && pairs[i][..|k|] == k
              && pairs[i][|k| + 1..] == EncodeUriComponent(params[i].value)
    {
      QueryPairHalves(params[i]);
    }
    JoinThenSplit(pairs, '&');
  }

  /** The front of a concatenation is its first part. */
  lemma PrefixOfConcat(a: string, b: string)
    ensures |a| <= |a + b| && (a + b)[..|a|] == a
  {
  }

  /** The path as `BuiltUrl` uses it. */
  function RawPath(query: seq<Param>): string {
    var path := QueryValue(query, "path");
    StripLeadingSlashes(if path.Some? then path.value else "")
  }

  /** A built URL is the scheduler base, the path without its leading slashes,
      and `?` with the query string exactly when there are extra parameters. */
  lemma BuiltUrlShape(query: seq<Param>)
    ensures var front := Base + RawPath(query);
            var url := BuiltUrl(query);
            && |front| <= |url| && url[..|front|] == front
            && (RawPath(query) == [] || RawPath(query)[0] != '/')
            && (ExtraParams(query) == [] <==> url == front)
            && (ExtraParams(query) != [] ==> url == front + "?" + ExtraQuery(query))
  {
    var front := Base + RawPath(query);
    var extra := ExtraQuery(query);
    var tail := if extra != "" then "?" + extra else "";
    assert BuiltUrl(query) == front + tail;
    ExtraQueryEmpty(query);
    PrefixOfConcat(front, tail);
    assert extra != "" ==> |front + tail| > |front|;
  }

  // ---------------------------------------------------------------------
  // The allow-list
  // ---------------------------------------------------------------------

  /** `ALLOWED` */
  const Allowed: seq<string> := [SchedulerHost, "vfscigaming.aitcloud.de"]

  /** `ALLOWED.some(h => hostname === h)` */
  function AnyEquals(hosts: seq<string>, hostname: string): (b: bool)
    ensures b <==> exists i :: 0 <= i < |hosts| && hosts[i] == hostname
  {
    if hosts == [] then false
    else
      var b := hosts[0] == hostname || AnyEquals(hosts[1..], hostname);
      assert forall i :: 1 <= i < |hosts| ==> hosts[i] == hosts[1..][i - 1];
      b
  }

  /** What the handler does once the target is known. */
  datatype Admission = Forward | Forbidden | ProxyError

  /** The safety check. `hostname` is what `new URL(targetUrl).hostname` gives,
      `None` when `decodeURIComponent` or `new URL` throws, which the handler's
      `catch` turns into a 502 answer. */
  function Admit(hostname: Option<string>): Admission {
    match hostname
    case None => ProxyError
    case Some(h) => if AnyEquals(Allowed, h) then Forward else Forbidden
  }

  /** The status of an answer given before anything is fetched. */
  function EarlyStatus(a: Admission): (status: Option<nat>)
    ensures status.None? <==> a.Forward?
  {
    match a
    case Forward => None
    case Forbidden => Some(403)
    case ProxyError => Some(502)
  }

  /** Only the two allowed hosts are fetched; every other host is refused with
      403, and a URL that cannot be parsed ends in 502. */
  lemma AdmitExactly(hostname: Option<string>)
    ensures Admit(hostname) == Forward <==>
              hostname == Some("schedulerzrh.aitcloud.de") || hostname == Some("vfscigaming.aitcloud.de")
    ensures Admit(hostname) == ProxyError <==> hostname.None?
    ensures EarlyStatus(Admit(hostname)) == Some(403) <==>
              hostname.Some? && hostname.value != "schedulerzrh.aitcloud.de"
                             && hostname.value != "vfscigaming.aitcloud.de"
    ensures EarlyStatus(Admit(hostname)) == Some(502) <==> hostname.None?
  {
    if hostname.Some? {
      assert AnyEquals(Allowed, hostname.value) <==>
               Allowed[0] == hostname.value || Allowed[1] == hostname.value;
    }
  }

  /** A built URL starts with `http://schedulerzrh.aitcloud.de/`: its authority
      is the allowed scheduler host, ended by the `/` that precedes the path. */
  lemma BuiltUrlOnScheduler(query: seq<Param>)
    ensures var url := BuiltUrl(query);
            |Base| <= |url| && url[..|Base|] == "http://" + Allowed[0] + "/"
  {
    BuiltUrlShape(query);
    var url := BuiltUrl(query);
    var front := Base + RawPath(query);
    PrefixOfConcat(Base, RawPath(query));
    assert url[..|Base|] == front[..|Base|];
  }
}
