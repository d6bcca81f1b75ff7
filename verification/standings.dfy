/**
 * The standings endpoint: turning provider records into table rows, the
 * depth-bounded search for a standings array inside an embedded JSON
 * document, the three extraction strategies tried in order, and the
 * handler's choice of response.
 */
module Standings {
  import opened Wrappers
  import opened Json
  import opened JsStrings

  /** One output row. `team`, `goalsFor`, `goalsAgainst` and `pts` carry
      whichever JSON value the provider record held under the key that won. */
  datatype Row = Row(pos: nat, team: Value, goalsFor: Value, goalsAgainst: Value, pts: Value, trend: string)

  /** The team name of a record that has none; such rows are dropped. */
  const Unnamed: Value := Str("???")
  const SameTrend: string := "same"

  /** What `item.team` throws when the array element is null. */
  const NullItemError: string := "Cannot read properties of null (reading 'team')"

  // ---------------------------------------------------------------------
  // One provider record to one row
  // ---------------------------------------------------------------------

  /** `c0 || c1 || ... || fallback`: the first truthy candidate, else the fallback. */
  function FirstTruthy(cands: seq<Option<Value>>, fallback: Value): (r: Value)
    ensures Truthy(Some(fallback)) ==> Truthy(Some(r))
  {
    if cands == [] then fallback
    else if Truthy(cands[0]) then cands[0].value
    else FirstTruthy(cands[1..], fallback)
  }

  /** `c0 ?? c1 ?? ... ?? fallback`: the first candidate that is neither null
      nor undefined, else the fallback. */
  function FirstPresent(cands: seq<Option<Value>>, fallback: Value): (r: Value)
    ensures !fallback.Null? ==> !r.Null?
  {
    if cands == [] then fallback
    else if !Nullish(cands[0]) then cands[0].value
    else FirstPresent(cands[1..], fallback)
  }

  /** The candidates for the team name, in the order `||` tries them:
      `item.team?.name?.short`, `item.name?.short`, `item.abbreviation`. */
  function TeamCandidates(item: Value): seq<Option<Value>> {
    [OptionalMember(OptionalMember(Member(item, "team"), "name"), "short"),
     OptionalMember(Member(item, "name"), "short"),
     Member(item, "abbreviation")]
  }

  /** The team name of a record: the first truthy candidate, else `'???'`. */
  function TeamName(item: Value): (team: Value)
    ensures Truthy(Some(team))
  {
    FirstTruthy(TeamCandidates(item), Unnamed)
  }

  /** `item[key] ?? item[alt] ?? 0`. */
  function Stat(item: Value, key: string, alt: string): (r: Value)
    ensures !r.Null?
  {
    FirstPresent([Member(item, key), Member(item, alt)], Number(0.0))
  }

  /** Three candidates tried by `FirstTruthy` are `a || b || c || fallback`. */
  lemma FirstTruthyOfThree(a: Option<Value>, b: Option<Value>, c: Option<Value>, fallback: Value)
    ensures FirstTruthy([a, b, c], fallback) == Or(Or(Or(a, b), c), Some(fallback)).value
  {
    assert [a, b, c][1..] == [b, c] && [b, c][1..] == [c] && [c][1..] == [];
    assert FirstTruthy([c], fallback) == if Truthy(c) then c.value else fallback;
    assert FirstTruthy([b, c], fallback) == if Truthy(b) then b.value else FirstTruthy([c], fallback);
  }

  /** The team name is exactly what JavaScript's `a || b || c || '???'` yields. */
  lemma TeamNameIsOrChain(item: Value)
    ensures var c := TeamCandidates(item);
            TeamName(item) == Or(Or(Or(c[0], c[1]), c[2]), Some(Unnamed)).value
  {
    var c := TeamCandidates(item);
    FirstTruthyOfThree(c[0], c[1], c[2], Unnamed);
    assert c == [c[0], c[1], c[2]];
  }

  /** A statistic is exactly what JavaScript's `a ?? b ?? 0` yields: an explicit
      0, false or empty string is kept, and only a missing or null entry falls
      through. */
  lemma StatIsCoalesceChain(item: Value, key: string, alt: string)
    ensures Stat(item, key, alt) == Coalesce(Coalesce(Member(item, key), Member(item, alt)), Some(Number(0.0))).value
  {
    var a, b := Member(item, key), Member(item, alt);
    assert [a, b][1..] == [b] && [b][1..] == [];
    assert FirstPresent([b], Number(0.0)) == if Nullish(b) then Number(0.0) else b.value;
  }

  /** A record is unnamed exactly when every candidate is falsy or the first
      truthy one is itself the string `'???'`. */
  lemma {:induction false} UnnamedExactly(cands: seq<Option<Value>>)
    ensures FirstTruthy(cands, Unnamed) == Unnamed <==>
              forall i :: 0 <= i < |cands| && Truthy(cands[i]) ==>
                exists j :: 0 <= j <= i && Truthy(cands[j]) && cands[j] == Some(Unnamed)
  {
    if cands != [] {
      UnnamedExactly(cands[1..]);
      if !Truthy(cands[0]) {
        forall i | 1 <= i < |cands| && Truthy(cands[i])
          ensures (exists j :: 0 <= j <= i - 1 && Truthy(cands[1..][j]) && cands[1..][j] == Some(Unnamed))
                  <==> (exists j :: 0 <= j <= i && Truthy(cands[j]) && cands[j] == Some(Unnamed))
        {
          if exists j :: 0 <= j <= i && Truthy(cands[j]) && cands[j] == Some(Unnamed) {
            var j :| 0 <= j <= i && Truthy(cands[j]) && cands[j] == Some(Unnamed);
            assert cands[1..][j - 1] == cands[j];
          }
        }
        assert forall i :: 0 <= i < |cands[1..]| ==> cands[1..][i] == cands[i + 1];
      }
    }
  }

  /** The row the `map` callback builds for a non-null element at 1-based position `pos`. */
  function ToRow(item: Value, pos: nat): (row: Row)
    requires !item.Null?
    ensures row.pos == pos && row.trend == SameTrend
  {
    Row(pos, TeamName(item), Stat(item, "goalsFor", "scored"), Stat(item, "goalsAgainst", "conceded"),
        Stat(item, "points", "pts"), SameTrend)
  }

  // ---------------------------------------------------------------------
  // extractFromStandingsArray
  // ---------------------------------------------------------------------

  /** Some element of the array is null. */
  predicate HasNull(items: seq<Value>) {
    exists i :: 0 <= i < |items| && items[i].Null?
  }

  /** `arr.map((item, i) => ...)` over elements none of which is null, the
      first of them at 1-based position `first`. */
  function MapItems(items: seq<Value>, first: nat): (rows: seq<Row>)
    requires !HasNull(items)
    ensures |rows| == |items|
    ensures forall i :: 0 <= i < |items| ==> rows[i] == ToRow(items[i], first + i)
  {
    seq(|items|, i requires 0 <= i < |items| => ToRow(items[i], first + i))
  }

  /** `.filter(r => r.team !== '???')` */
  function KeepNamed(rows: seq<Row>): (kept: seq<Row>)
    ensures |kept| <= |rows|
    ensures forall k :: 0 <= k < |kept| ==> kept[k].team != Unnamed
  {
    if rows == [] then []
    else (if rows[0].team == Unnamed then [] else [rows[0]]) + KeepNamed(rows[1..])
  }

  /** Rows as the extractor hands them on: every team named, every trend `'same'`. */
  predicate NamedRows(rows: seq<Row>) {
    forall k :: 0 <= k < |rows| ==> rows[k].team != Unnamed && rows[k].trend == SameTrend
  }

  /** Positions strictly increase along the list. */
  predicate Increasing(rows: seq<Row>) {
    forall i, j :: 0 <= i < j < |rows| ==> rows[i].pos < rows[j].pos
  }

  /** The rows carry the consecutive positions `first`, `first + 1`, ... */
  predicate NumberedFrom(rows: seq<Row>, first: nat) {
    forall i :: 0 <= i < |rows| ==> rows[i].pos == first + i
  }

  /** Every row of `r` is the row of `rows` its position names. */
  predicate DrawnFrom(r: seq<Row>, rows: seq<Row>, first: nat) {
    forall k :: 0 <= k < |r| ==> first <= r[k].pos < first + |rows| && r[k] == rows[r[k].pos - first]
  }

  /** `extractFromStandingsArray(arr)`: `[]` for anything but an array; a
      thrown TypeError when an element is null; otherwise the named rows. */
  function ExtractFromStandingsArray(arr: Value): (r: Result<seq<Row>>)
    ensures !arr.Array? ==> r == Ok([])
    ensures arr.Array? ==> (r.Err? <==> HasNull(arr.elems))
    ensures r.Err? ==> r.message == NullItemError
    ensures r.Ok? ==> |r.value| <= |Children(arr)| && NamedRows(r.value)
  {
    if !arr.Array? then Ok([])
    else if HasNull(arr.elems) then Err(NullItemError)
    else
      var rows := MapItems(arr.elems, 1);
      var kept := KeepNamed(rows);
      assert forall k :: 0 <= k < |rows| ==> rows[k].trend == SameTrend;
      KeptRowsKeepNumber(rows, 1);
      Ok(kept)
  }

  /** A filtered list drawn from the tail is drawn from the whole list. */
  lemma DrawnFromTail(rt: seq<Row>, rows: seq<Row>, first: nat)
    requires rows != [] && DrawnFrom(rt, rows[1..], first + 1)
    ensures DrawnFrom(rt, rows, first)
  {
    forall k | 0 <= k < |rt|
      ensures first <= rt[k].pos < first + |rows| && rt[k] == rows[rt[k].pos - first]
    {
      var j := rt[k].pos - (first + 1);
      assert rt[k] == rows[1..][j];
    }
  }

  /** Keeping the head row keeps the list drawn from `rows`. */
  lemma DrawnFromCons(rt: seq<Row>, rows: seq<Row>, first: nat)
    requires rows != [] && rows[0].pos == first && DrawnFrom(rt, rows, first)
    ensures DrawnFrom([rows[0]] + rt, rows, first)
  {
    var r := [rows[0]] + rt;
    forall k | 0 <= k < |r|
      ensures first <= r[k].pos < first + |rows| && r[k] == rows[r[k].pos - first]
    {
      if k > 0 {
        assert r[k] == rt[k - 1];
      }
    }
  }

  /** The filter keeps rows unchanged: each kept row is the mapped row its position names. */
  lemma {:induction false} KeptRowsKeepNumber(rows: seq<Row>, first: nat)
    requires NumberedFrom(rows, first)
    ensures DrawnFrom(KeepNamed(rows), rows, first)
  {
    if rows != [] {
      assert NumberedFrom(rows[1..], first + 1);
      KeptRowsKeepNumber(rows[1..], first + 1);
      DrawnFromTail(KeepNamed(rows[1..]), rows, first);
      if rows[0].team != Unnamed {
        DrawnFromCons(KeepNamed(rows[1..]), rows, first);
      }
    }
  }

  /** Putting a row in front of later-numbered rows keeps the order. */
  lemma IncreasingCons(x: Row, rt: seq<Row>)
    requires Increasing(rt)
    requires forall k :: 0 <= k < |rt| ==> x.pos < rt[k].pos
    ensures Increasing([x] + rt)
  {
    var r := [x] + rt;
    forall i, j | 0 <= i < j < |r| ensures r[i].pos < r[j].pos {
      assert r[j] == rt[j - 1];
      if i > 0 {
        assert r[i] == rt[i - 1];
      }
    }
  }

  /** The filter keeps the order of what it keeps. */
  lemma {:induction false} KeptIncreasing(rows: seq<Row>, first: nat)
    requires NumberedFrom(rows, first)
    ensures Increasing(KeepNamed(rows))
  {
    if rows != [] {
      assert NumberedFrom(rows[1..], first + 1);
      KeptIncreasing(rows[1..], first + 1);
      KeptRowsKeepNumber(rows[1..], first + 1);
      if rows[0].team != Unnamed {
        IncreasingCons(rows[0], KeepNamed(rows[1..]));
      }
    }
  }

  /** The filter drops no named row. */
  lemma {:induction false} KeptContains(rows: seq<Row>, i: nat)
    requires i < |rows| && rows[i].team != Unnamed
    ensures rows[i] in KeepNamed(rows)
  {
    var rt := KeepNamed(rows[1..]);
    if i == 0 {
      assert KeepNamed(rows)[0] == rows[0];
    } else {
      KeptContains(rows[1..], i - 1);
      assert rows[1..][i - 1] == rows[i];
      assert KeepNamed(rows) == (if rows[0].team == Unnamed then [] else [rows[0]]) + rt;
    }
  }

  /** What `extractFromStandingsArray` returns for an array without null elements. */
  lemma ExtractedIsKeptMapped(elems: seq<Value>)
    requires !HasNull(elems)
    ensures ExtractFromStandingsArray(Array(elems)) == Ok(KeepNamed(MapItems(elems, 1)))
    ensures NumberedFrom(MapItems(elems, 1), 1)
  {
  }

  /** Rows drawn from the mapped rows are the rows built from the elements their positions name. */
  lemma DrawnFromMapped(r: seq<Row>, elems: seq<Value>)
    requires !HasNull(elems) && DrawnFrom(r, MapItems(elems, 1), 1)
    ensures forall k :: 0 <= k < |r| ==> 1 <= r[k].pos <= |elems| && r[k] == ToRow(elems[r[k].pos - 1], r[k].pos)
  {
    var rows := MapItems(elems, 1);
    forall k | 0 <= k < |r|
      ensures 1 <= r[k].pos <= |elems| && r[k] == ToRow(elems[r[k].pos - 1], r[k].pos)
    {
      var i := r[k].pos - 1;
      assert r[k] == rows[i];
    }
  }

  /** Positions are the original index plus one, assigned before filtering:
      every result row is the row built from the element its position names. */
  lemma ExtractedRowsMatchElements(elems: seq<Value>)
    requires !HasNull(elems)
    ensures var r := ExtractFromStandingsArray(Array(elems)).value;
            forall k :: 0 <= k < |r| ==> 1 <= r[k].pos <= |elems| && r[k] == ToRow(elems[r[k].pos - 1], r[k].pos)
  {
    ExtractedIsKeptMapped(elems);
    KeptRowsKeepNumber(MapItems(elems, 1), 1);
    DrawnFromMapped(KeepNamed(MapItems(elems, 1)), elems);
  }

  /** The positions of the result strictly increase. */
  lemma ExtractedIncreasing(elems: seq<Value>)
    requires !HasNull(elems)
    ensures Increasing(ExtractFromStandingsArray(Array(elems)).value)
  {
    ExtractedIsKeptMapped(elems);
    KeptIncreasing(MapItems(elems, 1), 1);
  }

  /** An element's row is in the result exactly when the element has a team name. */
  lemma ExtractedKeepsExactlyNamed(elems: seq<Value>, i: nat)
    requires !HasNull(elems) && i < |elems|
    ensures TeamName(elems[i]) != Unnamed <==> ToRow(elems[i], i + 1) in ExtractFromStandingsArray(Array(elems)).value
  {
    ExtractedIsKeptMapped(elems);
    var rows := MapItems(elems, 1);
    if TeamName(elems[i]) != Unnamed {
      KeptContains(rows, i);
    }
  }

  // ---------------------------------------------------------------------
  // findStandings
  // ---------------------------------------------------------------------

  /** The keys `findStandings` tries at each level, in order. */
  const StandingsKeys: seq<string> := ["rows", "standings", "table", "items", "teams"]

  /** Nesting levels below the root that are still searched. */
  const MaxDepth: nat := 12

  /** `Array.isArray(obj[key]) && obj[key].length > 3` */
  predicate LongArrayUnder(obj: Value, key: string) {
    Member(obj, key).Some? && Member(obj, key).value.Array? && |Member(obj, key).value.elems| > 3
  }

  /** One iteration of the key loop: `obj[key]` is tried when it is an array
      of more than 3 elements. */
  function KeyCandidate(obj: Value, key: string): (r: Result<seq<Row>>)
    ensures LongArrayUnder(obj, key) ==> r == ExtractFromStandingsArray(Member(obj, key).value)
    ensures !LongArrayUnder(obj, key) ==> r == Ok([])
    ensures r.Ok? ==> NamedRows(r.value)
    ensures r.Ok? && r.value != [] ==>
              exists a :: Member(obj, key) == Some(a) && a.Array? && |a.elems| > 3 && ExtractFromStandingsArray(a) == r
  {
    match Member(obj, key)
    case Some(Array(elems)) =>
      if |elems| > 3 then ExtractFromStandingsArray(Array(elems)) else Ok([])
    case _ => Ok([])
  }

  /** A step of either loop that neither throws nor returns. */
  predicate Passes(c: Result<seq<Row>>) {
    c.Ok? && |c.value| <= 3
  }

  /** The results of the key loop's iterations, one per key, in order. */
  function KeyResults(obj: Value): (cands: seq<Result<seq<Row>>>)
    ensures |cands| == |StandingsKeys|
    ensures forall j :: 0 <= j < |cands| ==> cands[j] == KeyCandidate(obj, StandingsKeys[j])
  {
    seq(|StandingsKeys|, j requires 0 <= j < |StandingsKeys| => KeyCandidate(obj, StandingsKeys[j]))
  }

  /** The key loop over the results of its iterations: the first error is
      thrown, the first result of more than 3 rows is returned, else `[]`. */
  function FirstLong(cands: seq<Result<seq<Row>>>): (r: Result<seq<Row>>)
    ensures r.Ok? && r.value != [] ==> |r.value| > 3 && r in cands
  {
    if cands == [] then Ok([])
    else
      match cands[0]
      case Err(e) => Err(e)
      case Ok(mapped) => if |mapped| > 3 then Ok(mapped) else FirstLong(cands[1..])
  }

  /** The first step that throws or wins decides the loop, whatever the later steps hold. */
  lemma {:induction false} FirstLongFirstWins(cands: seq<Result<seq<Row>>>, m: nat)
    requires m < |cands|
    requires forall j :: 0 <= j < m ==> Passes(cands[j])
    requires !Passes(cands[m])
    ensures FirstLong(cands) == cands[m]
  {
    if m > 0 {
      assert Passes(cands[0]);
      assert forall j :: 0 <= j < m - 1 ==> cands[1..][j] == cands[j + 1];
      FirstLongFirstWins(cands[1..], m - 1);
    }
  }

  /** When every step passes, the loop yields no rows. */
  lemma {:induction false} FirstLongNoneWins(cands: seq<Result<seq<Row>>>)
    requires forall j :: 0 <= j < |cands| ==> Passes(cands[j])
    ensures FirstLong(cands) == Ok([])
  {
    if cands != [] {
      assert Passes(cands[0]);
      assert forall j :: 0 <= j < |cands[1..]| ==> cands[1..][j] == cands[j + 1];
      FirstLongNoneWins(cands[1..]);
    }
  }

  /** The key loop of `findStandings` at one level. */
  function TryKeys(obj: Value): (r: Result<seq<Row>>)
    ensures r.Ok? ==> (r.value == [] || |r.value| > 3) && NamedRows(r.value)
    ensures r.Ok? && r.value != [] ==> exists j :: 0 <= j < |StandingsKeys| && KeyCandidate(obj, StandingsKeys[j]) == r
  {
    var cands := KeyResults(obj);
    var r := FirstLong(cands);
    assert r.Ok? && r.value != [] ==> exists j :: 0 <= j < |cands| && cands[j] == r;
    r
  }

  /** `findStandings(obj, depth)`: `[]` beyond the depth bound or for anything
      but an array or object; otherwise the keys of this level, then each child
      value in order. A thrown error propagates. */
  function FindStandings(obj: Value, depth: nat): (r: Result<seq<Row>>)
    ensures depth > MaxDepth || (!obj.Array? && !obj.Object?) ==> r == Ok([])
    ensures r.Ok? ==> (r.value == [] || |r.value| > 3) && NamedRows(r.value)
    decreases MaxDepth + 1 - depth, 1, 0
  {
    if depth > MaxDepth || !Truthy(Some(obj)) || !IsObjectType(obj) then Ok([])
    else
      match TryKeys(obj)
      case Err(e) => Err(e)
      case Ok(mapped) => if |mapped| > 3 then Ok(mapped) else SearchValues(Children(obj), depth)
  }

  /** The loop over `Object.values(obj)` of an object at `depth`: each child
      whose `typeof` is 'object' is searched one level deeper. */
  function SearchValues(vals: seq<Value>, depth: nat): (r: Result<seq<Row>>)
    requires depth <= MaxDepth
    ensures r.Ok? ==> (r.value == [] || |r.value| > 3) && NamedRows(r.value)
    decreases MaxDepth + 1 - depth, 0, |vals|
  {
    if vals == [] then Ok([])
    else if IsObjectType(vals[0]) then
      match FindStandings(vals[0], depth + 1)
      case Err(e) => Err(e)
      case Ok(result) => if |result| > 3 then Ok(result) else SearchValues(vals[1..], depth)
    else SearchValues(vals[1..], depth)
  }

  /** The first child, in `Object.values` order, whose search throws or yields more
      than 3 rows decides the descent, whatever the later children hold. */
  lemma {:induction false} SearchValuesFirstDecides(vals: seq<Value>, depth: nat, m: nat)
    requires depth <= MaxDepth && m < |vals|
    requires forall j :: 0 <= j < m ==> !IsObjectType(vals[j]) || Passes(FindStandings(vals[j], depth + 1))
    requires IsObjectType(vals[m]) && !Passes(FindStandings(vals[m], depth + 1))
    ensures SearchValues(vals, depth) == FindStandings(vals[m], depth + 1)
    decreases m
  {
    if m > 0 {
      assert !IsObjectType(vals[0]) || Passes(FindStandings(vals[0], depth + 1));
      assert forall j :: 0 <= j < m - 1 ==> vals[1..][j] == vals[j + 1];
      SearchValuesFirstDecides(vals[1..], depth, m - 1);
    }
  }

  /** When no child decides, the descent yields no rows. */
  lemma {:induction false} SearchValuesNoneDecides(vals: seq<Value>, depth: nat)
    requires depth <= MaxDepth
    requires forall j :: 0 <= j < |vals| ==> !IsObjectType(vals[j]) || Passes(FindStandings(vals[j], depth + 1))
    ensures SearchValues(vals, depth) == Ok([])
    decreases |vals|
  {
    if vals != [] {
      assert !IsObjectType(vals[0]) || Passes(FindStandings(vals[0], depth + 1));
      assert forall j :: 0 <= j < |vals| - 1 ==> vals[1..][j] == vals[j + 1];
      SearchValuesNoneDecides(vals[1..], depth);
    }
  }

  /** A level whose key loop throws or yields rows ends there, without searching its children. */
  lemma FindStandingsTakesKeyRows(obj: Value, depth: nat)
    requires depth <= MaxDepth && (obj.Array? || obj.Object?)
    requires !Passes(TryKeys(obj))
    ensures FindStandings(obj, depth) == TryKeys(obj)
  {
  }

  /** The first key at this level that throws or wins decides, before any child is searched. */
  lemma FindStandingsKeyWins(obj: Value, depth: nat, m: nat)
    requires depth <= MaxDepth && (obj.Array? || obj.Object?)
    requires m < |StandingsKeys|
    requires forall j :: 0 <= j < m ==> Passes(KeyCandidate(obj, StandingsKeys[j]))
    requires !Passes(KeyCandidate(obj, StandingsKeys[m]))
    ensures FindStandings(obj, depth) == KeyCandidate(obj, StandingsKeys[m])
  {
    var cands := KeyResults(obj);
    FirstLongFirstWins(cands, m);
    assert TryKeys(obj) == cands[m];
    FindStandingsTakesKeyRows(obj, depth);
  }

  /** With no winning key at this level the children are searched in order. */
  lemma FindStandingsDescends(obj: Value, depth: nat)
    requires depth <= MaxDepth && (obj.Array? || obj.Object?)
    requires forall j :: 0 <= j < |StandingsKeys| ==> Passes(KeyCandidate(obj, StandingsKeys[j]))
    ensures FindStandings(obj, depth) == SearchValues(Children(obj), depth)
  {
    FirstLongNoneWins(KeyResults(obj));
    assert TryKeys(obj) == Ok([]);
  }

  /** `a` is `v` itself or lies at most `n` property steps below it. */
  ghost predicate Within(a: Value, v: Value, n: nat)
    decreases n
  {
    a == v || (n > 0 && exists c :: c in Children(v) && Within(a, c, n - 1))
  }

  /** Within a bound, within any larger one. */
  lemma {:induction false} WithinMonotone(a: Value, v: Value, n: nat, m: nat)
    requires n <= m && Within(a, v, n)
    ensures Within(a, v, m)
    decreases n
  {
    if a != v {
      var c :| c in Children(v) && Within(a, c, n - 1);
      WithinMonotone(a, c, n - 1, m - 1);
    }
  }

  /** Rows found at any depth are the extraction of an array of more than 3
      elements that lies in the document no deeper than the bound allows. */
  lemma {:induction false} FindStandingsSound(obj: Value, depth: nat)
    ensures var r := FindStandings(obj, depth);
            r.Ok? && r.value != [] ==>
              exists a :: Within(a, obj, MaxDepth + 1 - depth) && a.Array? && |a.elems| > 3
                          && ExtractFromStandingsArray(a) == r
    decreases MaxDepth + 1 - depth, 1, 0
  {
    var r := FindStandings(obj, depth);
    if r.Ok? && r.value != [] {
      assert depth <= MaxDepth && (obj.Array? || obj.Object?);
      var t := TryKeys(obj);
      if t.Ok? && |t.value| > 3 {
        var j :| 0 <= j < |StandingsKeys| && KeyCandidate(obj, StandingsKeys[j]) == t;
        var a :| Member(obj, StandingsKeys[j]) == Some(a) && a.Array? && |a.elems| > 3 && ExtractFromStandingsArray(a) == t;
        MemberInChildren(obj, StandingsKeys[j]);
        assert a in Children(obj) && Within(a, a, MaxDepth - depth);
      } else {
        SearchValuesSound(Children(obj), depth);
        var c, a :| c in Children(obj) && Within(a, c, MaxDepth - depth) && a.Array? && |a.elems| > 3
                    && ExtractFromStandingsArray(a) == r;
      }
    }
  }

  /** Rows found among the children come from below one of them. */
  lemma {:induction false} SearchValuesSound(vals: seq<Value>, depth: nat)
    requires depth <= MaxDepth
    ensures var r := SearchValues(vals, depth);
            r.Ok? && r.value != [] ==>
              exists c, a :: c in vals && Within(a, c, MaxDepth - depth) && a.Array? && |a.elems| > 3
                             && ExtractFromStandingsArray(a) == r
    decreases MaxDepth + 1 - depth, 0, |vals|
  {
    var r := SearchValues(vals, depth);
    if vals != [] && r.Ok? && r.value != [] {
      var f := FindStandings(vals[0], depth + 1);
      if IsObjectType(vals[0]) && f.Ok? && |f.value| > 3 {
        FindStandingsSound(vals[0], depth + 1);
        assert vals[0] in vals;
      } else {
        SearchValuesSound(vals[1..], depth);
        var c, a :| c in vals[1..] && Within(a, c, MaxDepth - depth) && a.Array? && |a.elems| > 3
                    && ExtractFromStandingsArray(a) == r;
        assert c in vals;
      }
    }
  }

  /** `extractFromNextData(data)` */
  function ExtractFromNextData(data: Value): (r: Result<seq<Row>>)
    ensures r.Ok? ==> (r.value == [] || |r.value| > 3) && NamedRows(r.value)
  {
    FindStandings(data, 0)
  }

  /** `extractFromState(data)` */
  function ExtractFromState(data: Value): (r: Result<seq<Row>>)
    ensures r.Ok? ==> (r.value == [] || |r.value| > 3) && NamedRows(r.value)
  {
    FindStandings(data, 0)
  }

  // ---------------------------------------------------------------------
  // fetchStandings
  // ---------------------------------------------------------------------

  /** What the page held for each strategy once its regular expression matched
      and `JSON.parse` succeeded; `None` when either failed. */
  datatype Page = Page(nextData: Option<Value>, state: Option<Value>, inlineStandings: Option<Value>)

  /** The outcome of `fetch`: a rejected promise, or a response with its status. */
  datatype Fetched = FetchFailed(message: string) | Received(status: nat, page: Page)

  /** A strategy inside its `try`: a thrown error is caught and leaves no rows. */
  function Caught(r: Result<seq<Row>>): (rows: seq<Row>)
    ensures r.Err? ==> rows == []
    ensures r.Ok? ==> rows == r.value
  {
    if r.Ok? then r.value else []
  }

  /** The rows of the `__NEXT_DATA__` strategy. */
  function NextDataRows(page: Page): seq<Row> {
    if page.nextData.Some? then Caught(ExtractFromNextData(page.nextData.value)) else []
  }

  /** The rows of the `window.__STATE__` strategy. */
  function StateRows(page: Page): seq<Row> {
    if page.state.Some? then Caught(ExtractFromState(page.state.value)) else []
  }

  /** The rows of the inline `"standings": [...]` strategy. */
  function InlineRows(page: Page): seq<Row> {
    if page.inlineStandings.Some? then Caught(ExtractFromStandingsArray(page.inlineStandings.value)) else []
  }

  /** The strategy chain on a fetched page: the first strategy that yields any
      row decides; when none does, no rows. */
  function ChooseStandings(page: Page): (rows: seq<Row>)
    ensures rows == [] <==> NextDataRows(page) == [] && StateRows(page) == [] && InlineRows(page) == []
    ensures rows != [] ==> rows == NextDataRows(page) || rows == StateRows(page) || rows == InlineRows(page)
    ensures NextDataRows(page) != [] ==> rows == NextDataRows(page)
    ensures NextDataRows(page) == [] && StateRows(page) != [] ==> rows == StateRows(page)
    ensures NextDataRows(page) == [] && StateRows(page) == [] ==> rows == InlineRows(page)
    ensures NamedRows(rows)
    ensures 0 < |rows| <= 3 ==> rows == InlineRows(page) && NextDataRows(page) == [] && StateRows(page) == []
  {
    var n := NextDataRows(page);
    if |n| > 0 then n
    else
      var s := StateRows(page);
      if |s| > 0 then s
      else
        var t := InlineRows(page);
        if |t| > 0 then t else []
  }

  /** `res.ok`: a status in 200..299. */
  predicate StatusOk(status: nat) {
    200 <= status <= 299
  }

  /** `fetchStandings(url)` given what `fetch(url)` produced: a rejection or a
      non-ok status is thrown to the caller (`HTTP <status>`); otherwise the
      strategies decide and never throw. */
  function FetchStandings(fetched: Fetched): (r: Result<seq<Row>>)
    ensures r.Err? <==> fetched.FetchFailed? || !StatusOk(fetched.status)
    ensures fetched.Received? && !StatusOk(fetched.status) ==> r == Err("HTTP " + DecimalString(fetched.status))
    ensures fetched.FetchFailed? ==> r == Err(fetched.message)
    ensures r.Ok? ==> r.value == ChooseStandings(fetched.page)
  {
    match fetched
    case FetchFailed(m) => Err(m)
    case Received(status, page) =>
      if !StatusOk(status) then Err("HTTP " + DecimalString(status)) else Ok(ChooseStandings(page))
  }

  /** A strategy whose extraction throws is the same as a strategy whose
      script was not found: the chain moves on to the next one. */
  lemma ThrowingStrategyIsSkipped(page: Page)
    ensures page.nextData.Some? && ExtractFromNextData(page.nextData.value).Err? ==>
              ChooseStandings(page) == ChooseStandings(page.(nextData := None))
    ensures page.state.Some? && ExtractFromState(page.state.value).Err? ==>
              ChooseStandings(page) == ChooseStandings(page.(state := None))
    ensures page.inlineStandings.Some? && ExtractFromStandingsArray(page.inlineStandings.value).Err? ==>
              ChooseStandings(page) == ChooseStandings(page.(inlineStandings := None))
  {
  }

  /** Rows a script strategy yields are the extraction of an array of more than
      3 elements inside its document. */
  lemma ScriptRowsSound(doc: Value)
    ensures var rows := Caught(FindStandings(doc, 0));
            rows != [] ==>
              exists a :: Within(a, doc, MaxDepth + 1) && a.Array? && |a.elems| > 3 && ExtractFromStandingsArray(a) == Ok(rows)
  {
    FindStandingsSound(doc, 0);
  }

  /** A non-empty result is the extraction of a concrete array in one of the
      page's documents: deep inside a parsed script, or the inline array itself. */
  lemma ChosenRowsSound(page: Page)
    ensures var rows := ChooseStandings(page);
            rows != [] ==>
              exists doc, a :: (page.nextData == Some(doc) || page.state == Some(doc) || page.inlineStandings == Some(doc))
                               && Within(a, doc, MaxDepth + 1) && a.Array? && ExtractFromStandingsArray(a) == Ok(rows)
  {
    var rows := ChooseStandings(page);
    if rows != [] {
      if NextDataRows(page) != [] {
        ScriptRowsSound(page.nextData.value);
      } else if StateRows(page) != [] {
        ScriptRowsSound(page.state.value);
      } else {
        var doc := page.inlineStandings.value;
        assert doc.Array? && Within(doc, doc, MaxDepth + 1);
      }
    }
  }

  // ---------------------------------------------------------------------
  // handler
  // ---------------------------------------------------------------------

  const PremierUrl: string := "https://s5.sir.sportradar.com/scigamingvirtuals/hu/1/season/3061001"

  /** The properties every plain object inherits from `Object.prototype`;
      `LEAGUES[liga]` finds one of them for these names. */
  const ObjectPrototypeKeys: seq<string> :=
    ["constructor", "__proto__", "hasOwnProperty", "isPrototypeOf", "propertyIsEnumerable",
     "toLocaleString", "toString", "valueOf", "__defineGetter__", "__defineSetter__",
     "__lookupGetter__", "__lookupSetter__"]

  /** What `LEAGUES[liga]` reads: nothing, the `null` placeholder, a URL, or an
      inherited prototype member (a function or the prototype object, truthy). */
  datatype LeagueEntry = Absent | NoUrl | Url(url: string) | Inherited(name: string)

  /** `searchParams.get('liga') || 'premier'`: a missing or empty parameter means the premier league. */
  function LeagueName(liga: Option<string>): (name: string)
    ensures name != []
    ensures liga.Some? && liga.value != [] ==> name == liga.value
  {
    if liga.Some? && liga.value != [] then liga.value else "premier"
  }

  /** `LEAGUES[name]` */
  function LeagueLookup(name: string): (e: LeagueEntry)
    ensures e.Url? <==> name == "premier"
    ensures e.NoUrl? <==> name == "spanyol"
    ensures e.Inherited? <==> name in ObjectPrototypeKeys
    ensures e.Url? ==> e.url == PremierUrl
  {
    if name == "premier" then Url(PremierUrl)
    else if name == "spanyol" then NoUrl
    else if name in ObjectPrototypeKeys then Inherited(name)
    else Absent
  }

  /** `!url`: only a missing entry or the `null` placeholder is falsy. */
  predicate UnderMaintenance(e: LeagueEntry) {
    e.Absent? || e.NoUrl?
  }

  /** The JSON body: `{ error, standings }`, or `{ standings }` when `error` is `None`. */
  datatype Body = Body(error: Option<string>, standings: seq<Row>)

  /** A response: its status, its body, and whether it carries the
      `Cache-Control: s-maxage=60, stale-while-revalidate=120` header. */
  datatype Response = Response(status: nat, body: Body, cacheable: bool)

  const MaintenanceMessage: string := "maintenance"

  /** The message of the rejection `fetch` gives for a string that is not a URL,
      such as the string form of an inherited prototype member. */
  const InvalidUrlMessage: string := "Invalid URL"

  /** `handler(req)` given the `liga` query parameter and what fetching the
      league's URL produced. */
  function Handler(liga: Option<string>, fetched: Fetched): (resp: Response)
    ensures resp.status == 200
    ensures resp.body.error.Some? ==> resp.body.standings == []
    ensures resp.body.error.None? <==> LeagueLookup(LeagueName(liga)).Url? && FetchStandings(fetched).Ok?
    ensures resp.body.error.None? ==> resp.body.standings == ChooseStandings(fetched.page)
    ensures resp.cacheable <==> resp.body.error.None? || UnderMaintenance(LeagueLookup(LeagueName(liga)))
    ensures UnderMaintenance(LeagueLookup(LeagueName(liga))) ==> resp.body.error == Some(MaintenanceMessage)
    ensures LeagueLookup(LeagueName(liga)).Inherited? ==> resp.body.error == Some(InvalidUrlMessage)
    ensures LeagueLookup(LeagueName(liga)).Url? && FetchStandings(fetched).Err? ==>
              resp.body.error == Some(FetchStandings(fetched).message)
  {
    match LeagueLookup(LeagueName(liga))
    case Absent => Response(200, Body(Some(MaintenanceMessage), []), true)
    case NoUrl => Response(200, Body(Some(MaintenanceMessage), []), true)
    case Inherited(_) => Response(200, Body(Some(InvalidUrlMessage), []), false)
    case Url(_) =>
      match FetchStandings(fetched)
      case Ok(rows) => Response(200, Body(None, rows), true)
      case Err(m) => Response(200, Body(Some(m), []), false)
  }

  lemma LeagueSelection(liga: Option<string>, fetched: Fetched)
    ensures liga.None? || liga == Some("") ==> LeagueLookup(LeagueName(liga)) == Url(PremierUrl)
    ensures liga.Some? && liga.value != "premier" && liga.value != [] && liga.value !in ObjectPrototypeKeys ==>
              Handler(liga, fetched) == Response(200, Body(Some(MaintenanceMessage), []), true)
  {
  }
}
