/**
 * The proxy's server-side cookie jar: per session and per host, an
 * insertion-ordered map from cookie name to value, filled from upstream
 * `Set-Cookie` headers and serialised into the `Cookie` header of the next
 * upstream request, with the parent domain's cookies merged underneath.
 */
module CookieJar {
  import opened Wrappers
  import opened JsStrings

  /** One entry of a jar. */
  datatype Cookie = Cookie(name: string, value: string)

  /** A JavaScript `Map` from name to value, as its entries in insertion order. */
  type Jar = seq<Cookie>

  /** `SESSION_JARS`: session id to host to jar. Hosts are never iterated, so
      their order is not kept. */
  type Store = map<string, map<string, Jar>>

  /** The domain whose jar is merged into every host's `Cookie` header. */
  const ParentDomain: string := "aitcloud.de"

  // ---------------------------------------------------------------------
  // One jar
  // ---------------------------------------------------------------------

  /** The names of a jar, in order. */
  function Names(jar: Jar): (names: seq<string>)
    ensures |names| == |jar|
    ensures forall i :: 0 <= i < |jar| ==> names[i] == jar[i].name
  {
    seq(|jar|, i requires 0 <= i < |jar| => jar[i].name)
  }

  /** No name occurs twice, as in every JavaScript `Map`. */
  predicate Distinct(jar: Jar) {
    forall i, j :: 0 <= i < j < |jar| ==> jar[i].name != jar[j].name
  }

  /** The index of the first occurrence of `n`, or -1. */
  function Position(names: seq<string>, n: string): (i: int)
    ensures -1 <= i < |names|
    ensures i >= 0 ==> names[i] == n && forall j :: 0 <= j < i ==> names[j] != n
    ensures i < 0 ==> forall j :: 0 <= j < |names| ==> names[j] != n
  {
    if names == [] then -1
    else if names[0] == n then 0
    else
      var i := Position(names[1..], n);
      assert forall j :: 1 <= j < |names| ==> names[j] == names[1..][j - 1];
      if i < 0 then -1 else i + 1
  }

  /** The first occurrence is the only index with that description. */
  lemma PositionUnique(names: seq<string>, n: string, i: int)
    requires -1 <= i < |names|
    requires i >= 0 ==> names[i] == n && forall j :: 0 <= j < i ==> names[j] != n
    requires i < 0 ==> forall j :: 0 <= j < |names| ==> names[j] != n
    ensures Position(names, n) == i
  {
  }

  /** `jar.get(name)`: the value of the entry with that name. */
  function Get(jar: Jar, name: string): (r: Option<string>)
  {
    var i := Position(Names(jar), name);
    if i < 0 then None else Some(jar[i].value)
  }

  /** `jar.get(name)` finds a value exactly for the names in the jar, and it is
      the value of the first entry with that name. */
  lemma GetSomeIffNamed(jar: Jar, name: string)
    ensures Get(jar, name).Some? <==> name in Names(jar)
    ensures Get(jar, name).Some? ==> exists i :: 0 <= i < |jar| && jar[i] == Cookie(name, Get(jar, name).value)
  {
    var i := Position(Names(jar), name);
    if i >= 0 {
      assert jar[i] == Cookie(name, Get(jar, name).value);
    }
  }

  /** `jar.set(name, value)`: an existing entry keeps its place and takes the
      new value; a new name is appended. */
  function Put(jar: Jar, name: string, value: string): (r: Jar)
    ensures Get(r, name) == Some(value)
    ensures forall n :: n != name ==> Get(r, n) == Get(jar, n)
    ensures Get(jar, name).Some? ==> Names(r) == Names(jar)
    ensures Get(jar, name).None? ==> r == jar + [Cookie(name, value)]
    ensures Distinct(jar) ==> Distinct(r)
  {
    var names := Names(jar);
    var i := Position(names, name);
    if i >= 0 then
      var r := jar[i := Cookie(name, value)];
      assert Names(r) == names;
      r
    else
      var r := jar + [Cookie(name, value)];
      assert Names(r) == names + [name];
      PositionUnique(names + [name], name, |jar|);
      forall n | n != name ensures Get(r, n) == Get(jar, n) {
        PositionUnique(names + [name], n, Position(names, n));
      }
      r
  }

  /** `new Map(entries)`: the entries put one after another into an empty map,
      so a later entry's value overrides an earlier one with the same name. */
  function FromEntries(entries: seq<Cookie>): (r: Jar)
    ensures Distinct(r)
    ensures r == [] <==> entries == []
  {
    if entries == [] then []
    else
      var last := entries[|entries| - 1];
      Put(FromEntries(entries[..|entries| - 1]), last.name, last.value)
  }

  /** `new Map([...parent, ...jar])` */
  function Merge(parent: Jar, jar: Jar): (r: Jar)
    ensures Distinct(r)
  {
    FromEntries(parent + jar)
  }

  /** A proper map without its last entry is still one, and adding the entry back restores it. */
  lemma DropLast(jar: Jar)
    requires jar != [] && Distinct(jar)
    ensures Distinct(jar[..|jar| - 1]) && jar[..|jar| - 1] + [jar[|jar| - 1]] == jar
  {
  }

  /** The last entry of a proper map is the only one with its name. */
  lemma LastIsFresh(jar: Jar)
    requires jar != [] && Distinct(jar)
    ensures Get(jar[..|jar| - 1], jar[|jar| - 1].name).None?
  {
    var init := jar[..|jar| - 1];
    assert forall j :: 0 <= j < |init| ==> Names(init)[j] == jar[j].name;
  }

  /** Rebuilding a map from its own entries gives the same map. */
  lemma {:induction false} FromEntriesOfDistinct(entries: seq<Cookie>)
    requires Distinct(entries)
    ensures FromEntries(entries) == entries
  {
    if entries != [] {
      var init := entries[..|entries| - 1];
      DropLast(entries);
      FromEntriesOfDistinct(init);
      LastIsFresh(entries);
    }
  }

  /** Merging one more host entry puts it into the merge of the others. */
  lemma MergeStep(parent: Jar, jar: Jar)
    requires jar != []
    ensures var last := jar[|jar| - 1];
            Merge(parent, jar) == Put(Merge(parent, jar[..|jar| - 1]), last.name, last.value)
  {
    var es := parent + jar;
    assert es[..|es| - 1] == parent + jar[..|jar| - 1];
    assert es[|es| - 1] == jar[|jar| - 1];
  }

  /** Looking up in a jar with one more entry at its end. */
  lemma GetAppend(jar: Jar, c: Cookie, name: string)
    ensures Get(jar + [c], name) ==
              if Get(jar, name).Some? then Get(jar, name)
              else if c.name == name then Some(c.value) else None
  {
    var names := Names(jar);
    assert Names(jar + [c]) == names + [c.name];
    var p := Position(names, name);
    if p >= 0 {
      PositionUnique(names + [c.name], name, p);
    } else if c.name == name {
      PositionUnique(names + [c.name], name, |jar|);
    } else {
      PositionUnique(names + [c.name], name, -1);
    }
  }

  /** A name's merged value: the host jar's when it has one, else the parent's. */
  lemma {:induction false} MergeGet(parent: Jar, jar: Jar, name: string)
    requires Distinct(parent) && Distinct(jar)
    ensures Get(Merge(parent, jar), name) == if Get(jar, name).Some? then Get(jar, name) else Get(parent, name)
    decreases |jar|
  {
    if jar == [] {
      assert parent + jar == parent;
      FromEntriesOfDistinct(parent);
    } else {
      var init := jar[..|jar| - 1];
      var last := jar[|jar| - 1];
      var m := Merge(parent, init);
      assert Merge(parent, jar) == Put(m, last.name, last.value) by {
        MergeStep(parent, jar);
      }
      DropLast(jar);
      assert Get(m, name) == if Get(init, name).Some? then Get(init, name) else Get(parent, name) by {
        MergeGet(parent, init, name);
      }
      assert Get(jar, name) == if Get(init, name).Some? then Get(init, name)
                               else if last.name == name then Some(last.value) else None by {
        GetAppend(init, last, name);
      }
      if last.name == name {
        LastIsFresh(jar);
      }
    }
  }

  /** The names of `jar` that `parent` does not have, in `jar`'s order. */
  function FreshNames(parent: Jar, jar: Jar): (added: seq<string>)
    ensures forall k :: 0 <= k < |added| ==> Get(parent, added[k]).None?
  {
    if jar == [] then []
    else
      var last := jar[|jar| - 1];
      FreshNames(parent, jar[..|jar| - 1]) + (if Get(parent, last.name).None? then [last.name] else [])
  }

  /** Names keep the parent's order first; names only the host jar has follow
      in the host jar's order. */
  lemma {:induction false} MergeNames(parent: Jar, jar: Jar)
    requires Distinct(parent) && Distinct(jar)
    ensures Names(Merge(parent, jar)) == Names(parent) + FreshNames(parent, jar)
    decreases |jar|
  {
    if jar == [] {
      assert parent + jar == parent;
      FromEntriesOfDistinct(parent);
    } else {
      var init := jar[..|jar| - 1];
      var last := jar[|jar| - 1];
      DropLast(jar);
      MergeStep(parent, jar);
      MergeNames(parent, init);
      MergeGet(parent, init, last.name);
      LastIsFresh(jar);
    }
  }

  /** The merged jar is empty exactly when both jars are. */
  lemma MergeEmpty(parent: Jar, jar: Jar)
    ensures Merge(parent, jar) == [] <==> parent == [] && jar == []
  {
  }

  /** The `name=value` piece of one cookie. */
  function Piece(c: Cookie): string {
    c.name + "=" + c.value
  }

  /** `[...jar.entries()].map(([k, v]) => `${k}=${v}`).join('; ')` */
  function Serialize(jar: Jar): (header: string)
  {
    Join(seq(|jar|, i requires 0 <= i < |jar| => Piece(jar[i])), "; ")
  }

  /** The header is empty exactly when the jar is: every piece holds an `=`. */
  lemma SerializeEmpty(jar: Jar)
    ensures Serialize(jar) == "" <==> jar == []
  {
    if jar != [] {
      var pieces := seq(|jar|, i requires 0 <= i < |jar| => Piece(jar[i]));
      assert pieces[0] == jar[0].name + "=" + jar[0].value;
      if |pieces| > 1 {
        assert Join(pieces, "; ") == pieces[0] + "; " + Join(pieces[1..], "; ");
      }
    }
  }

  // ---------------------------------------------------------------------
  // Set-Cookie parsing
  // ---------------------------------------------------------------------

  /** What one accepted `Set-Cookie` header stores: the jar it goes to, and the entry. */
  datatype SetCookie = SetCookie(domain: string, name: string, value: string)

  /** `raw.split(';').map(s => s.trim())` */
  function Segments(raw: string): (parts: seq<string>)
    ensures |parts| >= 1
    ensures forall k :: 0 <= k < |parts| ==> Trimmed(parts[k]) && Free(parts[k], ';')
  {
    var pieces := Split(raw, ';');
    assert forall k :: 0 <= k < |pieces| ==> Free(Trim(pieces[k]), ';') by {
      forall k | 0 <= k < |pieces| ensures Free(Trim(pieces[k]), ';') {
        SplitPiecesFree(raw, ';', k);
        TrimKeepsFree(pieces[k], ';');
      }
    }
    seq(|pieces|, k requires 0 <= k < |pieces| => Trim(pieces[k]))
  }

  /** `p.toLowerCase().startsWith('domain=')`; lower-casing can only turn
      ASCII letters into the letters of `domain`, so ASCII lower-casing decides it. */
  predicate IsDomainAttr(p: string) {
    |p| >= 7 && LowerAsciiString(p[..7]) == "domain="
  }

  /** `parts.find(p => ...)`: the first part that is a `Domain=` attribute. */
  function FindDomain(parts: seq<string>): (r: Option<string>)
    ensures r.Some? ==> IsDomainAttr(r.value) && r.value in parts
    ensures r.Some? ==> exists k :: 0 <= k < |parts| && parts[k] == r.value
                                    && forall j :: 0 <= j < k ==> !IsDomainAttr(parts[j])
    ensures r.None? ==> forall k :: 0 <= k < |parts| ==> !IsDomainAttr(parts[k])
  {
    if parts == [] then None
    else if IsDomainAttr(parts[0]) then Some(parts[0])
    else
      var r := FindDomain(parts[1..]);
      assert forall k :: 1 <= k < |parts| ==> parts[k] == parts[1..][k - 1];
      if r.Some? then
        var k :| 0 <= k < |parts| - 1 && parts[1..][k] == r.value
                 && forall j :: 0 <= j < k ==> !IsDomainAttr(parts[1..][j]);
        assert parts[k + 1] == r.value && forall j :: 0 <= j < k + 1 ==> !IsDomainAttr(parts[j]);
        r
      else
        r
  }

  /** `.replace(/^\./, '')`: one leading dot removed. */
  function StripDot(s: string): (r: string)
    ensures s != [] && s[0] == '.' ==> s == "." + r
    ensures (s == [] || s[0] != '.') ==> r == s
  {
    if s != [] && s[0] == '.' then s[1..] else s
  }

  /** The jar a header stores into: the `Domain=` attribute's value without its
      leading dot, else the host the response came from. */
  function TargetDomain(parts: seq<string>, host: string): string {
    match FindDomain(parts)
    case Some(p) => StripDot(p[7..])
    case None => host
  }

  /** The entry the first segment `name=value` names, or `None` when it has no
      `=` or nothing before it. */
  function ParseNameValuePart(nameVal: string): Option<(string, string)>
    requires Trimmed(nameVal) && Free(nameVal, ';')
  {
    var eq := IndexOf(nameVal, '=');
    if eq < 1 then None else Some((Trim(nameVal[..eq]), Trim(nameVal[eq + 1..])))
  }

  /** One iteration of `storeSetCookies`' loop, up to the `set` call: `None`
      for the headers it skips with `continue`. */
  function ParseSetCookie(raw: string, host: string): Option<SetCookie> {
    var parts := Segments(raw);
    match ParseNameValuePart(parts[0])
    case None => None
    case Some((name, value)) => Some(SetCookie(TargetDomain(parts, host), name, value))
  }

  /** The first segment is skipped exactly when it has no `=` or starts with one;
      otherwise both halves are trimmed, the name is not empty and holds no `=`,
      and neither half holds a `;`. */
  lemma NameValuePartShape(nameVal: string)
    requires Trimmed(nameVal) && Free(nameVal, ';')
    ensures var r := ParseNameValuePart(nameVal);
            && (r.None? <==> Free(nameVal, '=') || nameVal[0] == '=')
            && (r.Some? ==> r.value.0 != [] && Trimmed(r.value.0) && Free(r.value.0, '=')
                            && Free(r.value.0, ';') && Trimmed(r.value.1) && Free(r.value.1, ';'))
  {
    var eq := IndexOf(nameVal, '=');
    if eq >= 1 {
      var name := nameVal[..eq];
      assert !IsSpace(nameVal[0]) && name[0] == nameVal[0];
      assert Free(name, ';') && Free(nameVal[eq + 1..], ';');
      TrimEmpty(name);
      TrimKeepsFree(name, ';');
      TrimKeepsFree(name, '=');
      TrimKeepsFree(nameVal[eq + 1..], ';');
    }
  }

  /** What `storeSetCookies` takes from one header: it is skipped exactly when
      the first segment has no `=` or starts with one; an accepted entry has a
      non-empty trimmed name with no `=` or `;`, a trimmed value with no `;`,
      and goes to the jar `TargetDomain` names. */
  lemma ParseSetCookieShape(raw: string, host: string)
    ensures var first := Segments(raw)[0];
            var r := ParseSetCookie(raw, host);
            && (r.None? <==> Free(first, '=') || first[0] == '=')
            && (r.Some? ==> r.value.name != [] && Trimmed(r.value.name) && Free(r.value.name, '=')
                            && Free(r.value.name, ';') && Trimmed(r.value.value) && Free(r.value.value, ';'))
            && (r.Some? ==> r.value.domain == TargetDomain(Segments(raw), host))
  {
    NameValuePartShape(Segments(raw)[0]);
  }

  /** Removing one space in front of a trimmed, non-empty string is what `trim` does. */
  lemma TrimOneSpace(t: string)
    requires t != [] && Trimmed(t)
    ensures Trim([' '] + t) == t
  {
    var s := [' '] + t;
    assert s[1..] == t;
    assert LeadingSpaces(s) == 1 + LeadingSpaces(t);
  }

  /** The segments of `a;b` when neither holds a `;`. */
  lemma SegmentsOfTwo(a: string, b: string)
    requires Free(a, ';') && Free(b, ';')
    ensures Segments(a + ";" + b) == [Trim(a), Trim(b)]
  {
    JoinThenSplit([a, b], ';');
    assert Join([a, b], [';']) == a + ";" + b by {
      assert [a, b][1..] == [b];
    }
  }

  /** A header with no `;` is a single segment. */
  lemma SegmentsOfOne(s: string)
    requires Free(s, ';')
    ensures Segments(s) == [Trim(s)]
  {
    assert IndexOf(s, ';') == -1;
  }

  /** What `ParseSetCookie` stores once the segments and the first `=` are known. */
  lemma ParseGiven(raw: string, host: string, parts: seq<string>, eq: int)
    requires Segments(raw) == parts && IndexOf(parts[0], '=') == eq && eq >= 1
    ensures ParseSetCookie(raw, host)
            == Some(SetCookie(TargetDomain(parts, host), Trim(parts[0][..eq]), Trim(parts[0][eq + 1..])))
  {
    NameValuePartGiven(parts[0], eq);
  }

  /** The entry of a first segment whose first `=` is known. */
  lemma NameValuePartGiven(nameVal: string, eq: int)
    requires Trimmed(nameVal) && Free(nameVal, ';')
    requires IndexOf(nameVal, '=') == eq && eq >= 1
    ensures ParseNameValuePart(nameVal) == Some((Trim(nameVal[..eq]), Trim(nameVal[eq + 1..])))
  {
  }

  /** The first `=` of `name=value` follows the name, and both halves are kept. */
  lemma NameValueHalves(name: string, value: string)
    requires Free(name, '=')
    ensures var nv := name + "=" + value;
            IndexOf(nv, '=') == |name| && nv[..|name|] == name && nv[|name| + 1..] == value
  {
    IndexOfAfterPrefix(name, '=', value);
    var nv := name + "=" + value;
    assert nv == name + ['='] + value;
  }

  /** `name=value` is trimmed and has no `;` when its halves are. */
  lemma NameValueShape(name: string, value: string)
    requires name != [] && Trimmed(name) && Free(name, ';')
    requires Trimmed(value) && Free(value, ';')
    ensures var nv := name + "=" + value; Trimmed(nv) && Free(nv, ';')
  {
    var nv := name + "=" + value;
    assert nv[0] == name[0];
    assert value != [] ==> nv[|nv| - 1] == value[|value| - 1];
    assert forall j :: 0 <= j < |nv| ==> nv[j] == (if j < |name| then name[j] else if j == |name| then '=' else value[j - |name| - 1]);
  }

  /** A bare `name=value` header goes to the host's jar unchanged; the value
      may itself contain `=`. */
  lemma ParseNameValue(name: string, value: string, host: string)
    requires name != [] && Trimmed(name) && Free(name, '=') && Free(name, ';')
    requires Trimmed(value) && Free(value, ';')
    requires !IsDomainAttr(name + "=" + value)
    ensures ParseSetCookie(name + "=" + value, host) == Some(SetCookie(host, name, value))
  {
    var nv := name + "=" + value;
    NameValueShape(name, value);
    SegmentsOfOne(nv);
    NameValueHalves(name, value);
    assert FindDomain([nv]) == None by {
      assert FindDomain([nv][1..]) == None;
    }
    ParseGiven(nv, host, [nv], |name|);
  }

  /** An attribute written `Domain=...` is recognised. */
  lemma DomainAttr(d: string)
    ensures IsDomainAttr("Domain=." + d)
  {
    var p := "Domain=." + d;
    assert p[..7] == "Domain=";
    var l := LowerAsciiString("Domain=");
    assert l[0] == 'd' && l[1] == 'o' && l[2] == 'm' && l[3] == 'a' && l[4] == 'i' && l[5] == 'n' && l[6] == '=';
  }

  /** How `first; Domain=.d` is put together. */
  lemma DomainHeaderText(first: string, d: string)
    ensures first + "; Domain=." + d == first + ";" + (" " + ("Domain=." + d))
  {
  }

  /** The segments of `first; Domain=.d`. */
  lemma SegmentsWithDomain(first: string, d: string)
    requires first != [] && Trimmed(first) && Free(first, ';')
    requires Trimmed(d) && Free(d, ';')
    ensures Segments(first + "; Domain=." + d) == [first, "Domain=." + d]
  {
    var attr := "Domain=." + d;
    var rest := " " + attr;
    assert Free(rest, ';') by {
      assert forall j :: 9 <= j < |rest| ==> rest[j] == d[j - 9];
    }
    assert first + "; Domain=." + d == first + ";" + rest by {
      DomainHeaderText(first, d);
    }
    SegmentsOfTwo(first, rest);
    assert Trimmed(attr) by {
      assert d != [] ==> attr[|attr| - 1] == d[|d| - 1];
    }
    TrimOneSpace(attr);
    assert rest == [' '] + attr;
  }

  /** The `Domain=` attribute of `first; Domain=.d` is found when `first` is not one. */
  lemma FindDomainSecond(first: string, d: string)
    requires !IsDomainAttr(first)
    ensures FindDomain([first, "Domain=." + d]) == Some("Domain=." + d)
  {
    DomainAttr(d);
    assert [first, "Domain=." + d][1..] == ["Domain=." + d];
  }

  /** Such a header stores into the jar of `d`, without the dot. */
  lemma DomainTarget(first: string, d: string, host: string)
    requires !IsDomainAttr(first)
    ensures TargetDomain([first, "Domain=." + d], host) == d
  {
    FindDomainSecond(first, d);
    var attr := "Domain=." + d;
    assert attr == "Domain=" + ("." + d);
    assert attr[7..] == "." + d;
    assert ("." + d)[1..] == d;
  }

  /** `name=value; Domain=.d` stores into the jar of `d`, without the dot. */
  lemma ParseWithDomain(name: string, value: string, d: string, host: string)
    requires name != [] && Trimmed(name) && Free(name, '=') && Free(name, ';')
    requires Trimmed(value) && Free(value, ';')
    requires Trimmed(d) && Free(d, ';')
    requires !IsDomainAttr(name + "=" + value)
    ensures ParseSetCookie(name + "=" + value + "; Domain=." + d, host) == Some(SetCookie(d, name, value))
  {
    var nv := name + "=" + value;
    var attr := "Domain=." + d;
    var raw := nv + "; Domain=." + d;
    assert IndexOf(nv, '=') == |name| && Trim(nv[..|name|]) == name && Trim(nv[|name| + 1..]) == value by {
      NameValueHalves(name, value);
    }
    assert Trimmed(nv) && Free(nv, ';') by {
      NameValueShape(name, value);
    }
    assert nv != [] by {
      assert |nv| == |name| + 1 + |value|;
    }
    assert Segments(raw) == [nv, attr] by {
      SegmentsWithDomain(nv, d);
    }
    assert TargetDomain([nv, attr], host) == d by {
      DomainTarget(nv, d, host);
    }
    ParseGiven(raw, host, [nv, attr], |name|);
  }

  // ---------------------------------------------------------------------
  // The store
  // ---------------------------------------------------------------------

  /** A jar exists for the session and host. */
  predicate HasJar(store: Store, sid: string, host: string) {
    sid in store && host in store[sid]
  }

  /** The jar for the session and host; a jar that does not exist reads as empty. */
  function JarOf(store: Store, sid: string, host: string): Jar {
    if HasJar(store, sid, host) then store[sid][host] else []
  }

  /** Every jar of the store is a proper map. */
  ghost predicate ValidStore(store: Store) {
    forall sid, host :: HasJar(store, sid, host) ==> Distinct(JarOf(store, sid, host))
  }

  /** The store after `getJar(sid, host)`: the session's host map and the jar
      are created when missing. */
  function EnsureJar(store: Store, sid: string, host: string): (r: Store)
  {
    var byHost := if sid in store then store[sid] else map[];
    var jar := if host in byHost then byHost[host] else [];
    store[sid := byHost[host := jar]]
  }

  /** `getJar` is get-or-create: afterwards the jar exists, an existing jar is
      returned unchanged, and no other session's or host's jar is touched. */
  lemma EnsureJarEffect(store: Store, sid: string, host: string)
    ensures var r := EnsureJar(store, sid, host);
            && HasJar(r, sid, host)
            && JarOf(r, sid, host) == JarOf(store, sid, host)
            && (HasJar(store, sid, host) ==> r == store)
            && (forall s, h :: (s != sid || h != host) ==>
                  HasJar(r, s, h) == HasJar(store, s, h) && JarOf(r, s, h) == JarOf(store, s, h))
            && (ValidStore(store) ==> ValidStore(r))
  {
    var r := EnsureJar(store, sid, host);
    if HasJar(store, sid, host) {
      assert store[sid][host := store[sid][host]] == store[sid];
      assert r == store;
    }
  }

  /** `map.set(name, value)` on an existing jar. */
  function PutIn(store: Store, sid: string, host: string, name: string, value: string): (r: Store)
    requires HasJar(store, sid, host)
  {
    store[sid := store[sid][host := Put(store[sid][host], name, value)]]
  }

  /** What one parsed header does to the store: a skipped header nothing, an
      accepted one `getJar(sid, domain).set(name, value)`. */
  function Apply(store: Store, sid: string, parsed: Option<SetCookie>): Store {
    match parsed
    case None => store
    case Some(c) => PutIn(EnsureJar(store, sid, c.domain), sid, c.domain, c.name, c.value)
  }

  /** Setting an entry keeps every jar a proper map. */
  lemma PutInValid(store: Store, sid: string, host: string, name: string, value: string)
    requires ValidStore(store) && HasJar(store, sid, host)
    ensures ValidStore(PutIn(store, sid, host, name, value))
  {
    var r := PutIn(store, sid, host, name, value);
    forall s, h | HasJar(r, s, h) ensures Distinct(JarOf(r, s, h)) {
      if s == sid && h == host {
        assert Distinct(JarOf(store, sid, host));
      } else {
        assert JarOf(r, s, h) == JarOf(store, s, h);
      }
    }
  }

  /** The store after one header of `storeSetCookies`' loop. */
  function StoreOne(store: Store, sid: string, raw: string, host: string): Store {
    Apply(store, sid, ParseSetCookie(raw, host))
  }

  /** The store after the loop over `headers`, one header after another. */
  function StoreAll(store: Store, sid: string, headers: seq<string>, host: string): Store
  {
    if headers == [] then store
    else StoreOne(StoreAll(store, sid, headers[..|headers| - 1], host), sid, headers[|headers| - 1], host)
  }

  /** A skipped header changes nothing. An accepted one sets only its own name
      in its own jar, keeping that jar's order, and leaves every other jar as it was. */
  lemma ApplyEffect(store: Store, sid: string, parsed: Option<SetCookie>)
    ensures parsed.None? ==> Apply(store, sid, parsed) == store
    ensures var r := Apply(store, sid, parsed);
            parsed.Some? ==>
              var c := parsed.value;
              && HasJar(r, sid, c.domain)
              && JarOf(r, sid, c.domain) == Put(JarOf(store, sid, c.domain), c.name, c.value)
              && (forall s, h :: (s != sid || h != c.domain) ==>
                    HasJar(r, s, h) == HasJar(store, s, h) && JarOf(r, s, h) == JarOf(store, s, h))
    ensures ValidStore(store) ==> ValidStore(Apply(store, sid, parsed))
  {
    if parsed.Some? {
      var c := parsed.value;
      EnsureJarEffect(store, sid, c.domain);
      var e := EnsureJar(store, sid, c.domain);
      var r := Apply(store, sid, parsed);
      assert r == PutIn(e, sid, c.domain, c.name, c.value);
      forall s, h | s != sid || h != c.domain
        ensures HasJar(r, s, h) == HasJar(store, s, h) && JarOf(r, s, h) == JarOf(store, s, h)
      {
        assert HasJar(r, s, h) == HasJar(e, s, h) && JarOf(r, s, h) == JarOf(e, s, h);
      }
    }
  }

  /** What a stored cookie does to the next `Cookie` header: its own name now
      reads the stored value in that jar, and every other name keeps its value. */
  lemma StoredCookieIsSent(store: Store, sid: string, c: SetCookie, name: string)
    ensures Get(JarOf(Apply(store, sid, Some(c)), sid, c.domain), name) ==
              if name == c.name then Some(c.value) else Get(JarOf(store, sid, c.domain), name)
  {
    ApplyEffect(store, sid, Some(c));
  }

  // ---------------------------------------------------------------------
  // The process-wide jars
  // ---------------------------------------------------------------------

  /** `SESSION_JARS` with the three functions that use it. */
  class SessionJars {
    var jars: Store

    /** Every jar is a proper map. */
    ghost predicate Valid()
      reads this
    {
      ValidStore(jars)
    }

    /** `new Map()` */
    constructor ()
      ensures Valid() && jars == map[]
    {
      jars := map[];
    }

    /** `getJar(sid, host)`: the jar's contents, created empty when missing. */
    method GetJar(sid: string, host: string) returns (jar: Jar)
      requires Valid()
      modifies this
      ensures Valid()
      ensures jars == EnsureJar(old(jars), sid, host)
      ensures jar == JarOf(old(jars), sid, host) && Distinct(jar)
    {
      EnsureJarEffect(jars, sid, host);
      jars := EnsureJar(jars, sid, host);
      jar := jars[sid][host];
    }

    /** `jar.set(name, value)` on the jar of an existing session and host. */
    method Set(sid: string, host: string, name: string, value: string)
      requires Valid() && HasJar(jars, sid, host)
      modifies this
      ensures Valid()
      ensures jars == PutIn(old(jars), sid, host, name, value)
    {
      PutInValid(jars, sid, host, name, value);
      jars := jars[sid := jars[sid][host := Put(jars[sid][host], name, value)]];
    }

    /** `storeSetCookies(sid, host, setCookieHeaders)` */
    method StoreSetCookies(sid: string, host: string, headers: seq<string>)
      requires Valid()
      modifies this
      ensures Valid()
      ensures jars == StoreAll(EnsureJar(old(jars), sid, host), sid, headers, host)
    {
      var _ := GetJar(sid, host);
      ghost var start := jars;
      for i := 0 to |headers|
        invariant Valid()
        invariant jars == StoreAll(start, sid, headers[..i], host)
      {
        assert headers[..i + 1][..i] == headers[..i];
        var parsed := ParseSetCookie(headers[i], host);
        ghost var before := jars;
        if parsed.Some? {
          var c := parsed.value;
          var _ := GetJar(sid, c.domain);
          Set(sid, c.domain, c.name, c.value);
        }
        assert jars == Apply(before, sid, parsed);
      }
      assert headers[..|headers|] == headers;
    }

    /** `jarToCookieHeader(sid, host)`: the merged parent-domain and host jars,
      serialised. Both jars are created when missing. */
    method CookieHeader(sid: string, host: string) returns (header: string)
      requires Valid()
      modifies this
      ensures Valid()
      ensures jars == EnsureJar(EnsureJar(old(jars), sid, host), sid, ParentDomain)
      ensures header == Serialize(Merge(JarOf(old(jars), sid, ParentDomain), JarOf(old(jars), sid, host)))
    {
      var jar := GetJar(sid, host);
      EnsureJarEffect(old(jars), sid, host);
      var parent := GetJar(sid, ParentDomain);
      header := Serialize(Merge(parent, jar));
    }
  }
}
