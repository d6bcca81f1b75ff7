/**
 * The proxy's session id: the value of the `_psid` cookie in the incoming
 * `Cookie` header, found with the pattern `(?:^|;\s*)_psid=([^;]+)`, or a
 * freshly generated id that the response hands back in a `Set-Cookie` header.
 */
module ProxySession {
  import opened Wrappers
  import opened JsStrings

  /** The literal text that introduces the cookie. */
  const Marker: string := "_psid="

  /** `lit` occurs in `s` at position `i`. */
  predicate LiteralAt(s: string, i: nat, lit: string) {
    i + |lit| <= |s| && s[i..i + |lit|] == lit
  }

  /** Length of the run of `\s` characters starting at `i`: what the greedy `\s*` takes. */
  function SpacesFrom(s: string, i: nat): (n: nat)
    requires i <= |s|
    ensures i + n <= |s|
    ensures forall k :: i <= k < i + n ==> IsSpace(s[k])
    ensures i + n < |s| ==> !IsSpace(s[i + n])
    decreases |s| - i
  {
    if i == |s| || !IsSpace(s[i]) then 0 else 1 + SpacesFrom(s, i + 1)
  }

  /** Length of the run of characters other than `;` starting at `i`: what the greedy `[^;]+` takes. */
  function ValueRun(s: string, i: nat): (n: nat)
    requires i <= |s|
    ensures i + n <= |s|
    ensures forall k :: i <= k < i + n ==> s[k] != ';'
    ensures i + n < |s| ==> s[i + n] == ';'
    decreases |s| - i
  {
    if i == |s| || s[i] == ';' then 0 else 1 + ValueRun(s, i + 1)
  }

  /** The captured value when the marker sits at `q`: the maximal run of
      non-`;` characters after it, which must not be empty. */
  function ValueAfterMarker(s: string, q: nat): Option<string>
    requires q <= |s|
  {
    if LiteralAt(s, q, Marker) && ValueRun(s, q + |Marker|) >= 1 then
      Some(s[q + |Marker|..q + |Marker| + ValueRun(s, q + |Marker|)])
    else None
  }

  /** The pattern matched with its match starting at `p`: the `^` branch at the
      very start, else the `;\s*` branch at a `;`. */
  function MatchAt(s: string, p: nat): Option<string>
    requires p <= |s|
  {
    if p == 0 && ValueAfterMarker(s, 0).Some? then ValueAfterMarker(s, 0)
    else if p < |s| && s[p] == ';' then ValueAfterMarker(s, p + 1 + SpacesFrom(s, p + 1))
    else None
  }

  /** The leftmost match at or after `p`. */
  function FirstMatch(s: string, p: nat): Option<string>
    requires p <= |s|
    decreases |s| - p
  {
    if MatchAt(s, p).Some? then MatchAt(s, p)
    else if p == |s| then None
    else FirstMatch(s, p + 1)
  }

  /** `cookieHdr.match(/(?:^|;\s*)_psid=([^;]+)/)`, reduced to its capture group. */
  function SessionIdFrom(header: string): Option<string> {
    FirstMatch(header, 0)
  }

  /** A value found after the marker is non-empty, holds no `;`, and is all
      of the text up to the next `;` or the end. */
  lemma ValueAfterMarkerShape(s: string, q: nat)
    requires q <= |s|
    ensures var r := ValueAfterMarker(s, q);
            r.Some? ==> && LiteralAt(s, q, Marker) && r.value != [] && Free(r.value, ';')
                        && var e := q + |Marker| + |r.value|;
                           e <= |s| && s[q + |Marker|..e] == r.value && (e == |s| || s[e] == ';')
  {
  }

  /** Where the leftmost match at or after `p` starts, or -1 when there is none. */
  function MatchStart(s: string, p: nat): (m: int)
    requires p <= |s|
    decreases |s| - p
  {
    if MatchAt(s, p).Some? then p
    else if p == |s| then -1
    else MatchStart(s, p + 1)
  }

  /** The leftmost match is the match at `MatchStart`, and nothing matches
      between `p` and there; with no start, nothing matches at all. */
  lemma {:induction false} MatchStartIsLeftmost(s: string, p: nat)
    requires p <= |s|
    ensures var m := MatchStart(s, p);
            && (m == -1 || p <= m <= |s|)
            && (m == -1 <==> FirstMatch(s, p).None?)
            && (m >= 0 ==> FirstMatch(s, p) == MatchAt(s, m))
            && (forall k :: p <= k <= |s| && (m == -1 || k < m) ==> MatchAt(s, k).None?)
    decreases |s| - p
  {
    if MatchAt(s, p).None? && p < |s| {
      MatchStartIsLeftmost(s, p + 1);
    }
  }

  /** The session id taken from a header is what follows a `_psid=` that starts
      the header or follows a `;` and spaces: non-empty, free of `;`, and
      running to the next `;` or the end. */
  lemma SessionIdShape(header: string)
    ensures var r := SessionIdFrom(header);
            r.Some? ==> r.value != [] && Free(r.value, ';')
                        && exists q :: 0 <= q <= |header| && ValueAfterMarker(header, q) == r
  {
    MatchStartIsLeftmost(header, 0);
    var m := MatchStart(header, 0);
    if m >= 0 {
      MatchValueAtIs(header, m);
      ValueAfterMarkerShape(header, MarkerPos(header, m));
    }
  }

  /** Where the marker of a match at `p` sits. */
  function MarkerPos(s: string, p: nat): (q: nat)
    requires p <= |s|
    ensures q <= |s|
  {
    if p == 0 && ValueAfterMarker(s, 0).Some? then 0
    else if p < |s| then p + 1 + SpacesFrom(s, p + 1)
    else p
  }

  /** A match at `p` is the value after the marker at `MarkerPos`. */
  lemma MatchValueAtIs(s: string, p: nat)
    requires p <= |s|
    ensures MatchAt(s, p).Some? ==> ValueAfterMarker(s, MarkerPos(s, p)) == MatchAt(s, p)
  {
  }

  /** Skipping positions where nothing matches leaves the leftmost match alone. */
  lemma {:induction false} FirstMatchSkips(s: string, p: nat, q: nat)
    requires p <= q <= |s|
    requires forall k :: p <= k < q ==> MatchAt(s, k).None?
    ensures FirstMatch(s, p) == FirstMatch(s, q)
    decreases q - p
  {
    if p < q {
      FirstMatchSkips(s, p + 1, q);
    }
  }

  /** `_psid=v` followed by `;` or nothing: the marker and the value, read back. */
  lemma MarkerValue(v: string, rest: string)
    requires v != [] && Free(v, ';')
    requires rest == [] || rest[0] == ';'
    ensures var s := Marker + v + rest;
            ValueAfterMarker(s, 0) == Some(v)
  {
    var s := Marker + v + rest;
    assert s[..|Marker|] == Marker;
    assert forall k :: |Marker| <= k < |Marker| + |v| ==> s[k] == v[k - |Marker|];
    ValueRunIs(s, |Marker|, |v|);
    assert s[|Marker|..|Marker| + |v|] == v;
  }

  /** The run of non-`;` characters is exactly `n` long when it is bounded there. */
  lemma {:induction false} ValueRunIs(s: string, i: nat, n: nat)
    requires i + n <= |s|
    requires forall k :: i <= k < i + n ==> s[k] != ';'
    requires i + n == |s| || s[i + n] == ';'
    ensures ValueRun(s, i) == n
    decreases n
  {
    if n > 0 {
      ValueRunIs(s, i + 1, n - 1);
    }
  }

  /** A header that starts with `_psid=v` yields `v`, whatever cookies follow. */
  lemma SessionIdLeading(v: string, rest: string)
    requires v != [] && Free(v, ';')
    requires rest == [] || rest[0] == ';'
    ensures SessionIdFrom(Marker + v + rest) == Some(v)
  {
    MarkerValue(v, rest);
  }

  /** The spaces after the `;` are skipped before the marker. */
  lemma {:induction false} SpacesFromIs(s: string, i: nat, n: nat)
    requires i + n <= |s|
    requires forall k :: i <= k < i + n ==> IsSpace(s[k])
    requires i + n < |s| ==> !IsSpace(s[i + n])
    ensures SpacesFrom(s, i) == n
    decreases n
  {
    if n > 0 {
      SpacesFromIs(s, i + 1, n - 1);
    }
  }

  /** How `other; _psid=v rest` is put together. */
  lemma LaterCookieText(other: string, v: string, rest: string)
    ensures other + "; " + Marker + v + rest == other + ";" + (" " + (Marker + v + rest))
  {
  }

  /** Nothing matches inside a first cookie that holds no `;` and does not start with `_`. */
  lemma NoMatchInFirst(other: string, t: string)
    requires Free(other, ';') && (other == [] || other[0] != '_')
    ensures forall k :: 0 <= k < |other| ==> MatchAt(other + ";" + t, k).None?
  {
    var s := other + ";" + t;
    forall k | 0 <= k < |other| ensures MatchAt(s, k).None? {
      assert s[k] == other[k];
      if k == 0 {
        assert !LiteralAt(s, 0, Marker) by {
          assert s[0] != Marker[0];
        }
      }
    }
  }

  /** The match at the `;` that ends the first cookie: `; _psid=v` gives `v`. */
  lemma MatchAtSeparator(other: string, v: string, rest: string)
    requires v != [] && Free(v, ';')
    requires rest == [] || rest[0] == ';'
    ensures MatchAt(other + ";" + (" " + (Marker + v + rest)), |other|) == Some(v)
  {
    var t := Marker + v + rest;
    var s := other + ";" + (" " + t);
    var p := |other|;
    assert s[p] == ';' && s[p + 1] == ' ' && s[p + 2] == '_';
    assert s[p + 2..] == t;
    SpacesFromIs(s, p + 1, 1);
    MarkerValue(v, rest);
    ShiftedValue(s, p + 2, t);
  }

  /** A `_psid` cookie after a first cookie that holds no `;` and does not
      itself start with `_`: the value is found after `; `. */
  lemma SessionIdAfter(other: string, v: string, rest: string)
    requires Free(other, ';') && (other == [] || other[0] != '_')
    requires v != [] && Free(v, ';')
    requires rest == [] || rest[0] == ';'
    ensures SessionIdFrom(other + "; " + Marker + v + rest) == Some(v)
  {
    var s := other + ";" + (" " + (Marker + v + rest));
    LaterCookieText(other, v, rest);
    NoMatchInFirst(other, " " + (Marker + v + rest));
    FirstMatchSkips(s, 0, |other|);
    MatchAtSeparator(other, v, rest);
  }

  /** Looking for the value inside a suffix is the same as inside the whole string. */
  lemma ShiftedValue(s: string, d: nat, t: string)
    requires d <= |s| && s[d..] == t
    ensures ValueAfterMarker(s, d) == ValueAfterMarker(t, 0)
  {
    if LiteralAt(t, 0, Marker) {
      assert s[d..d + |Marker|] == t[..|Marker|];
    } else {
      assert !LiteralAt(s, d, Marker) by {
        if d + |Marker| <= |s| {
          assert s[d..d + |Marker|] == t[..|Marker|];
        }
      }
    }
    if LiteralAt(t, 0, Marker) {
      ShiftedRun(s, d + |Marker|, t, |Marker|);
      var n := ValueRun(t, |Marker|);
      assert s[d + |Marker|..d + |Marker| + n] == t[|Marker|..|Marker| + n];
    }
  }

  /** The run of non-`;` characters is the same in a suffix. */
  lemma {:induction false} ShiftedRun(s: string, i: nat, t: string, j: nat)
    requires i <= |s| && j <= |t| && |s| - i == |t| - j
    requires s[i..] == t[j..]
    ensures ValueRun(s, i) == ValueRun(t, j)
    decreases |s| - i
  {
    if i < |s| {
      assert s[i] == t[j];
      assert s[i + 1..] == t[j + 1..];
      ShiftedRun(s, i + 1, t, j + 1);
    }
  }

  /** A header with no `_psid=` anywhere yields no session id. */
  lemma {:induction false} NoMarkerNoSession(header: string)
    requires forall q :: 0 <= q <= |header| ==> !LiteralAt(header, q, Marker)
    ensures SessionIdFrom(header).None?
  {
    MatchStartIsLeftmost(header, 0);
    var m := MatchStart(header, 0);
    if m >= 0 {
      MatchValueAtIs(header, m);
      ValueAfterMarkerShape(header, MarkerPos(header, m));
    }
  }

  /** The session the handler works with, and the `Set-Cookie` header it issues for a new one. */
  datatype Session = Session(sid: string, setCookie: Option<string>)

  /** The `Set-Cookie` value for a newly generated id. */
  function IssueCookie(sid: string): string {
    Marker + sid + "; Path=/; SameSite=Lax"
  }

  /** A lower-case hexadecimal digit, as `toString('hex')` writes. */
  predicate IsHexDigit(c: char) {
    '0' <= c <= '9' || 'a' <= c <= 'f'
  }

  /** `crypto.randomBytes(16).toString('hex')`: 32 lower-case hexadecimal digits. */
  predicate IsGeneratedId(g: string) {
    |g| == 32 && forall i :: 0 <= i < |g| ==> IsHexDigit(g[i])
  }

  /** `req.headers['cookie'] || ''` followed by the match: the id from the
      header when there is one, else the generated id with a cookie that
      carries it. */
  function ResolveSession(cookieHeader: Option<string>, generated: string): Session {
    var header := if cookieHeader.Some? then cookieHeader.value else "";
    match SessionIdFrom(header)
    case Some(sid) => Session(sid, None)
    case None => Session(generated, Some(IssueCookie(generated)))
  }

  /** A generated id holds no `;` and no space. */
  lemma GeneratedIdIsPlain(g: string)
    requires IsGeneratedId(g)
    ensures g != [] && Free(g, ';')
  {
    assert forall i :: 0 <= i < |g| ==> IsHexDigit(g[i]);
  }

  /** The handler keeps an existing session and issues a cookie only for a new
      one; the id is never empty, and the cookie it issues brings the same id
      back: a browser that returns `_psid=<id>` (alone or followed by other
      cookies) is recognised as the same session. */
  lemma ResolveSessionSound(cookieHeader: Option<string>, generated: string, rest: string)
    requires IsGeneratedId(generated)
    requires rest == [] || rest[0] == ';'
    ensures var r := ResolveSession(cookieHeader, generated);
            var header := if cookieHeader.Some? then cookieHeader.value else "";
            && r.sid != [] && Free(r.sid, ';')
            && (r.setCookie.None? <==> SessionIdFrom(header).Some?)
            && (r.setCookie.None? ==> SessionIdFrom(header) == Some(r.sid))
            && (r.setCookie.Some? ==> r.sid == generated && r.setCookie.value == IssueCookie(generated)
                                      && SessionIdFrom(Marker + r.sid + rest) == Some(r.sid))
  {
    var header := if cookieHeader.Some? then cookieHeader.value else "";
    SessionIdShape(header);
    GeneratedIdIsPlain(generated);
    if SessionIdFrom(header).None? {
      SessionIdLeading(generated, rest);
    }
  }
}
