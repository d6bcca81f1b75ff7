/**
 * The response headers the proxy sends back: the upstream headers minus the
 * ones that would stop the page from being embedded or that belong to the
 * upstream connection, followed by the two headers that allow embedding.
 */
module ProxyHeaders {
  import opened JsStrings

  /** `STRIP`: upstream headers that are never forwarded. */
  const Strip: seq<string> := [
    "x-frame-options", "content-security-policy", "content-security-policy-report-only",
    "x-content-type-options", "strict-transport-security",
    "transfer-encoding", "connection", "keep-alive", "set-cookie"
  ]

  /** `STRIP.has(k.toLowerCase())` */
  predicate Stripped(name: string) {
    LowerAsciiString(name) in Strip
  }

  /** A `tchar` of section 3.2.6 of RFC 7230: what a header name may consist of. */
  predicate TokenChar(c: char) {
    || ('a' <= c <= 'z') || ('A' <= c <= 'Z') || ('0' <= c <= '9')
    || c == '!' || c == '#' || c == '$' || c == '%' || c == '&' || c == '\'' || c == '*'
    || c == '+' || c == '-' || c == '.' || c == '^' || c == '_' || c == '`' || c == '|' || c == '~'
  }

  /** A header value character: tab, visible ASCII and space, or a byte 0x80-0xFF. */
  predicate FieldChar(c: char) {
    c == '\t' || (' ' <= c <= '~') || ('\U{80}' <= c <= '\U{FF}')
  }

  /** What `res.setHeader` accepts; for anything else it throws, and the
      forwarding loop's `catch` skips that header. */
  predicate Acceptable(name: string, value: string) {
    && name != []
    && (forall i :: 0 <= i < |name| ==> TokenChar(name[i]))
    && (forall i :: 0 <= i < |value| ==> FieldChar(value[i]))
  }

  /** The headers after forwarding the upstream headers in order: a header is
      set (under its lower-case name, replacing any earlier value) when it is
      not stripped and `setHeader` accepts it. */
  function Forwarded(headers: map<string, string>, upstream: seq<(string, string)>): map<string, string>
    decreases |upstream|
  {
    if upstream == [] then headers
    else
      var (k, v) := upstream[|upstream| - 1];
      var before := Forwarded(headers, upstream[..|upstream| - 1]);
      if !Stripped(k) && Acceptable(k, v) then before[LowerAsciiString(k) := v] else before
  }

  /** The response the handler writes its headers into; Node keeps header
      names case-insensitively, here as their lower-case form. */
  class ProxyResponse {
    var headers: map<string, string>

    constructor(initial: map<string, string>)
      ensures headers == initial
    {
      headers := initial;
    }

    /** `res.setHeader(name, value)`, and whether it succeeded rather than threw. */
    method SetHeader(name: string, value: string) returns (ok: bool)
      modifies this
      ensures ok == Acceptable(name, value)
      ensures headers == if ok then old(headers)[LowerAsciiString(name) := value] else old(headers)
    {
      ok := Acceptable(name, value);
      if ok {
        headers := headers[LowerAsciiString(name) := value];
      }
    }

    /** The forwarding loop, then `X-Frame-Options: ALLOWALL` and
        `Access-Control-Allow-Origin: *`. */
    method ForwardHeaders(upstream: seq<(string, string)>)
      modifies this
      ensures headers == Forwarded(old(headers), upstream)["x-frame-options" := "ALLOWALL"]
                                                          ["access-control-allow-origin" := "*"]
    {
      for i := 0 to |upstream|
        invariant headers == Forwarded(old(headers), upstream[..i])
      {
        ForwardedStep(old(headers), upstream, i);
        var (k, v) := upstream[i];
        if !Stripped(k) {
          var _ := SetHeader(k, v);
        }
      }
      assert upstream[..|upstream|] == upstream;
      FrameOptionsAccepted();
      FrameOptionsLowered();
      var _ := SetHeader("X-Frame-Options", "ALLOWALL");
      AllowOriginAccepted();
      AllowOriginLowered();
      var _ := SetHeader("Access-Control-Allow-Origin", "*");
    }
  }

  /** One more upstream header: forwarded when not stripped and accepted. */
  lemma ForwardedStep(headers: map<string, string>, upstream: seq<(string, string)>, i: int)
    requires 0 <= i < |upstream|
    ensures var (k, v) := upstream[i];
            var before := Forwarded(headers, upstream[..i]);
            Forwarded(headers, upstream[..i + 1])
              == if !Stripped(k) && Acceptable(k, v) then before[LowerAsciiString(k) := v] else before
  {
    assert upstream[..i + 1][..i] == upstream[..i];
  }

  /** `X-Frame-Options: ALLOWALL` is accepted. */
  lemma FrameOptionsAccepted()
    ensures Acceptable("X-Frame-Options", "ALLOWALL")
  {
  }

  /** `X-Frame-Options` is stored as `x-frame-options`. */
  lemma FrameOptionsLowered()
    ensures LowerAsciiString("X-Frame-Options") == "x-frame-options"
  {
    LowerAsciiConcat("X-Frame-", "Options");
    assert LowerAsciiString("X-Frame-") == "x-frame-";
    assert LowerAsciiString("Options") == "options";
  }

  /** `Access-Control-Allow-Origin: *` is accepted. */
  lemma AllowOriginAccepted()
    ensures Acceptable("Access-Control-Allow-Origin", "*")
  {
  }

  /** `Access-Control-Allow-Origin` is stored as `access-control-allow-origin`. */
  lemma AllowOriginLowered()
    ensures LowerAsciiString("Access-Control-Allow-Origin") == "access-control-allow-origin"
  {
    LowerAsciiConcat("Access-Control-", "Allow-Origin");
    LowerAsciiConcat("Access-", "Control-");
    LowerAsciiConcat("Allow-", "Origin");
    assert LowerAsciiString("Access-") == "access-";
    assert LowerAsciiString("Control-") == "control-";
    assert LowerAsciiString("Allow-") == "allow-";
    assert LowerAsciiString("Origin") == "origin";
  }

  /** A header the proxy already holds under a stripped name is never
      replaced by an upstream header, and no stripped name is added. */
  lemma {:induction false} StrippedNeverForwarded(headers: map<string, string>, upstream: seq<(string, string)>, name: string)
    requires name in Strip
    ensures name in Forwarded(headers, upstream) <==> name in headers
    ensures name in headers ==> Forwarded(headers, upstream)[name] == headers[name]
    decreases |upstream|
  {
    if upstream != [] {
      StrippedNeverForwarded(headers, upstream[..|upstream| - 1], name);
    }
  }

  /** An upstream header that is not stripped and that `setHeader` accepts is
      forwarded with its value when no later header has the same lower-case name. */
  lemma {:induction false} SafeHeaderForwarded(headers: map<string, string>, upstream: seq<(string, string)>, i: int)
    requires 0 <= i < |upstream|
    requires !Stripped(upstream[i].0) && Acceptable(upstream[i].0, upstream[i].1)
    requires forall j :: i < j < |upstream| ==> LowerAsciiString(upstream[j].0) != LowerAsciiString(upstream[i].0)
    ensures LowerAsciiString(upstream[i].0) in Forwarded(headers, upstream)
    ensures Forwarded(headers, upstream)[LowerAsciiString(upstream[i].0)] == upstream[i].1
    decreases |upstream|
  {
    if i < |upstream| - 1 {
      SafeHeaderForwarded(headers, upstream[..|upstream| - 1], i);
    }
  }

  /** Every header the forwarding adds or changes comes from a non-stripped,
      acceptable upstream header with that lower-case name. */
  lemma {:induction false} ForwardedFromUpstream(headers: map<string, string>, upstream: seq<(string, string)>, name: string)
    requires name in Forwarded(headers, upstream)
    requires name !in headers || Forwarded(headers, upstream)[name] != headers[name]
    ensures exists j :: 0 <= j < |upstream| && LowerAsciiString(upstream[j].0) == name
                        && !Stripped(upstream[j].0) && Acceptable(upstream[j].0, upstream[j].1)
                        && Forwarded(headers, upstream)[name] == upstream[j].1
    decreases |upstream|
  {
    var n := |upstream|;
    var (k, v) := upstream[n - 1];
    var init := upstream[..n - 1];
    if !Stripped(k) && Acceptable(k, v) && LowerAsciiString(k) == name {
      assert upstream[n - 1] == (k, v);
    } else {
      ForwardedFromUpstream(headers, init, name);
      var j :| 0 <= j < |init| && LowerAsciiString(init[j].0) == name
               && !Stripped(init[j].0) && Acceptable(init[j].0, init[j].1)
               && Forwarded(headers, init)[name] == init[j].1;
      assert upstream[j] == init[j];
    }
  }

  /** After forwarding, embedding is allowed and cross-origin reads are open,
      whatever the upstream sent; a session cookie set before forwarding survives. */
  lemma EmbeddingHeaders(headers: map<string, string>, upstream: seq<(string, string)>)
    ensures var h := Forwarded(headers, upstream)["x-frame-options" := "ALLOWALL"]
                                                ["access-control-allow-origin" := "*"];
            && h["x-frame-options"] == "ALLOWALL" && h["access-control-allow-origin"] == "*"
            && ("set-cookie" in h <==> "set-cookie" in headers)
            && ("set-cookie" in headers ==> h["set-cookie"] == headers["set-cookie"])
  {
    StrippedNeverForwarded(headers, upstream, "set-cookie");
  }
}
