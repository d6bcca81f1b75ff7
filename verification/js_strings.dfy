/**
 * The JavaScript string operations the proxy relies on, over Dafny strings:
 * `trim`, `indexOf`, `split` at a one-character separator, `join` with a
 * string separator, lower-casing of ASCII letters, and the decimal
 * rendering of a natural number.
 */
module JsStrings {

  /** The code points JavaScript classes as WhiteSpace or LineTerminator:
      what `String.prototype.trim` removes and what `\s` matches. */
  predicate IsSpace(c: char) {
    || c == '\t' || c == '\n' || c == '\U{B}' || c == '\U{C}' || c == '\r' || c == ' '
    || c == '\U{A0}' || c == '\U{1680}' || ('\U{2000}' <= c <= '\U{200A}')
    || c == '\U{2028}' || c == '\U{2029}' || c == '\U{202F}' || c == '\U{205F}'
    || c == '\U{3000}' || c == '\U{FEFF}'
  }

  /** A string with no space at either end. */
  predicate Trimmed(s: string) {
    s == [] || (!IsSpace(s[0]) && !IsSpace(s[|s| - 1]))
  }

  /** Length of the run of spaces that starts the string. */
  function LeadingSpaces(s: string): (n: nat)
    ensures n <= |s|
    ensures forall i :: 0 <= i < n ==> IsSpace(s[i])
    ensures n < |s| ==> !IsSpace(s[n])
  {
    if s == [] || !IsSpace(s[0]) then 0 else 1 + LeadingSpaces(s[1..])
  }

  /** Length of the run of spaces that ends the string. */
  function TrailingSpaces(s: string): (n: nat)
    ensures n <= |s|
    ensures forall i :: |s| - n <= i < |s| ==> IsSpace(s[i])
    ensures n < |s| ==> !IsSpace(s[|s| - 1 - n])
  {
    if s == [] || !IsSpace(s[|s| - 1]) then 0 else 1 + TrailingSpaces(s[..|s| - 1])
  }

  /** `c` does not occur in `s`. */
  predicate Free(s: string, c: char) {
    forall j :: 0 <= j < |s| ==> s[j] != c
  }

  /** `s.trim()` */
  function Trim(s: string): (r: string)
    ensures Trimmed(r)
    ensures |r| <= |s|
    ensures Trimmed(s) ==> r == s
  {
    var lo := LeadingSpaces(s);
    var t := s[lo..];
    var r := t[..|t| - TrailingSpaces(t)];
    assert forall j :: 0 <= j < |r| ==> r[j] == s[lo + j];
    r
  }

  /** Trimming keeps one slice of the string and drops only spaces before and after it. */
  lemma TrimIsSlice(s: string) returns (lo: nat, hi: nat)
    ensures lo <= hi <= |s| && Trim(s) == s[lo..hi]
    ensures forall i :: 0 <= i < lo ==> IsSpace(s[i])
    ensures forall i :: hi <= i < |s| ==> IsSpace(s[i])
  {
    lo := LeadingSpaces(s);
    var t := s[lo..];
    hi := lo + |t| - TrailingSpaces(t);
    assert Trim(s) == s[lo..hi];
    forall i | hi <= i < |s|
      ensures IsSpace(s[i])
    {
      assert s[i] == t[i - lo];
    }
  }

  /** Trimming leaves nothing exactly when the string is all spaces. */
  lemma TrimEmpty(s: string)
    ensures Trim(s) == [] <==> forall i :: 0 <= i < |s| ==> IsSpace(s[i])
  {
    var lo := LeadingSpaces(s);
    var t := s[lo..];
    if lo < |s| {
      assert !IsSpace(t[0]);
      assert TrailingSpaces(t) < |t|;
    }
  }

  /** Trimming removes characters and adds none. */
  lemma TrimKeepsFree(s: string, c: char)
    requires Free(s, c)
    ensures Free(Trim(s), c)
  {
    var lo := LeadingSpaces(s);
    var r := Trim(s);
    assert forall j :: 0 <= j < |r| ==> r[j] == s[lo + j];
  }

  /** `s.indexOf(c)`: the first position of `c`, or -1. */
  function IndexOf(s: string, c: char): (i: int)
    ensures -1 <= i < |s|
    ensures i == -1 ==> Free(s, c)
    ensures 0 <= i ==> s[i] == c && Free(s[..i], c)
  {
    if s == [] then -1
    else if s[0] == c then 0
    else
      var j := IndexOf(s[1..], c);
      assert forall k :: 1 <= k < |s| ==> s[k] == s[1..][k - 1];
      assert 0 <= j ==> s[..j + 1] == [s[0]] + s[1..][..j];
      if j == -1 then -1 else j + 1
  }

  /** `s.split(sep)` for a one-character separator: never empty. */
  function Split(s: string, sep: char): (parts: seq<string>)
    ensures |parts| >= 1
    decreases |s|
  {
    var i := IndexOf(s, sep);
    if i == -1 then [s] else [s[..i]] + Split(s[i + 1..], sep)
  }

  /** The first piece of a split is the text before the first separator, or the whole string when there is none. */
  lemma SplitFirstPiece(s: string, sep: char)
    ensures IndexOf(s, sep) == -1 ==> Split(s, sep) == [s]
    ensures IndexOf(s, sep) >= 0 ==> Split(s, sep)[0] == s[..IndexOf(s, sep)]
  {
  }

  /** Past the first piece, a split goes on as the split of the text after the first separator. */
  lemma SplitTail(s: string, sep: char, k: int) returns (tail: string)
    requires 1 <= k < |Split(s, sep)|
    ensures |tail| < |s| && k - 1 < |Split(tail, sep)|
    ensures Split(s, sep)[k] == Split(tail, sep)[k - 1]
  {
    tail := s[IndexOf(s, sep) + 1..];
  }

  /** The first piece of a split holds no separator. */
  lemma SplitHeadFree(s: string, sep: char)
    ensures Free(Split(s, sep)[0], sep)
  {
  }

  /** No piece of a split holds the separator. */
  lemma {:induction false} SplitPiecesFree(s: string, sep: char, k: int)
    requires 0 <= k < |Split(s, sep)|
    ensures Free(Split(s, sep)[k], sep)
    decreases |s|
  {
    if k == 0 {
      SplitHeadFree(s, sep);
    } else {
      var tail := SplitTail(s, sep, k);
      SplitPiecesFree(tail, sep, k - 1);
    }
  }

  /** `parts.join(sep)` */
  function Join(parts: seq<string>, sep: string): string {
    if parts == [] then ""
    else if |parts| == 1 then parts[0]
    else parts[0] + sep + Join(parts[1..], sep)
  }

  /** Joining a piece in front of a non-empty list puts the separator between. */
  lemma JoinCons(p: string, rest: seq<string>, sep: string)
    requires rest != []
    ensures Join([p] + rest, sep) == p + sep + Join(rest, sep)
  {
    assert ([p] + rest)[1..] == rest;
  }

  /** A string is the text before a position, the character there, and the text after. */
  lemma PiecesAround(s: string, i: int)
    requires 0 <= i < |s|
    ensures s[..i] + [s[i]] + s[i + 1..] == s
  {
  }

  /** Splitting and joining again gives back the original string. */
  lemma {:induction false} SplitThenJoin(s: string, sep: char)
    ensures Join(Split(s, sep), [sep]) == s
    decreases |s|
  {
    var i := IndexOf(s, sep);
    if i != -1 {
      var head, tail := s[..i], s[i + 1..];
      var rest := Split(tail, sep);
      assert Split(s, sep) == [head] + rest;
      assert Join(rest, [sep]) == tail by {
        SplitThenJoin(tail, sep);
      }
      assert Join([head] + rest, [sep]) == head + [sep] + tail by {
        JoinCons(head, rest, [sep]);
      }
      assert head + [sep] + tail == s by {
        PiecesAround(s, i);
      }
    }
  }

  /** The first separator of `a + [sep] + b` is right after `a` when `a` has none. */
  lemma IndexOfAfterPrefix(a: string, sep: char, b: string)
    requires Free(a, sep)
    ensures IndexOf(a + [sep] + b, sep) == |a|
  {
    var s := a + [sep] + b;
    assert s[|a|] == sep;
    assert s[..|a|] == a;
  }

  /** Joining pieces that hold no separator and splitting again gives back the pieces. */
  lemma {:induction false} JoinThenSplit(parts: seq<string>, sep: char)
    requires |parts| >= 1
    requires forall k :: 0 <= k < |parts| ==> Free(parts[k], sep)
    ensures Split(Join(parts, [sep]), sep) == parts
  {
    if |parts| == 1 {
      assert Free(parts[0], sep);
    } else {
      var rest := Join(parts[1..], [sep]);
      assert Free(parts[0], sep);
      IndexOfAfterPrefix(parts[0], sep, rest);
      JoinThenSplit(parts[1..], sep);
      var s := parts[0] + [sep] + rest;
      assert s[..|parts[0]|] == parts[0];
      assert s[|parts[0]| + 1..] == rest;
    }
  }

  /** `c.toLowerCase()` for ASCII letters; every other character is kept. */
  function LowerAscii(c: char): (r: char)
    ensures 'A' <= c <= 'Z' ==> r as int == c as int + 32
    ensures !('A' <= c <= 'Z') ==> r == c
  {
    if 'A' <= c <= 'Z' then (c as int + 32) as char else c
  }

  /** ASCII lower-casing of a whole string, character by character. */
  function LowerAsciiString(s: string): (r: string)
    ensures |r| == |s|
    ensures forall i :: 0 <= i < |s| ==> r[i] == LowerAscii(s[i])
  {
    seq(|s|, i requires 0 <= i < |s| => LowerAscii(s[i]))
  }

  /** Lower-casing works piece by piece. */
  lemma LowerAsciiConcat(a: string, b: string)
    ensures LowerAsciiString(a + b) == LowerAsciiString(a) + LowerAsciiString(b)
  {
  }

  /** The digit character for `d`. */
  function Digit(d: nat): (c: char)
    requires d < 10
    ensures '0' <= c <= '9' && c as int - '0' as int == d
  {
    ('0' as int + d) as char
  }

  /** `String(n)` for a natural number: its decimal digits, with no leading zero. */
  function DecimalString(n: nat): (s: string)
    ensures s != [] && forall i :: 0 <= i < |s| ==> '0' <= s[i] <= '9'
    ensures s[0] == '0' ==> n == 0 && s == "0"
    decreases n
  {
    if n < 10 then [Digit(n)] else DecimalString(n / 10) + [Digit(n % 10)]
  }

  /** The number a string of decimal digits denotes. */
  function DecimalValue(s: string): nat
    requires forall i :: 0 <= i < |s| ==> '0' <= s[i] <= '9'
  {
    if s == [] then 0 else DecimalValue(s[..|s| - 1]) * 10 + (s[|s| - 1] as int - '0' as int)
  }

  /** Reading back the digits `String(n)` writes gives `n`. */
  lemma {:induction false} DecimalRoundTrip(n: nat)
    ensures DecimalValue(DecimalString(n)) == n
    decreases n
  {
    if n >= 10 {
      DecimalRoundTrip(n / 10);
      var s := DecimalString(n);
      assert s[..|s| - 1] == DecimalString(n / 10);
    }
  }
}
