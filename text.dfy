/** The JavaScript string built-ins that the client code relies on, on `seq<char>`:
    ASCII case mapping (`toUpperCase`, `toLowerCase`), `indexOf`/`includes`,
    `split` and `join` with a non-empty separator, `startsWith`, `replace` of one
    character everywhere, and `trim`. */
module Text {
  import opened Wrappers

  // ---------------------------------------------------------------------------
  // Case mapping (ASCII only)

  function UpperChar(c: char): (u: char)
    ensures 'a' <= c <= 'z' ==> u as int == c as int - 32
    ensures !('a' <= c <= 'z') ==> u == c
  {
    if 'a' <= c <= 'z' then (c as int - 32) as char else c
  }

  function LowerChar(c: char): (l: char)
    ensures 'A' <= c <= 'Z' ==> l as int == c as int + 32
    ensures !('A' <= c <= 'Z') ==> l == c
  {
    if 'A' <= c <= 'Z' then (c as int + 32) as char else c
  }

  /** `s.toUpperCase()` */
  function Upper(s: string): (r: string)
    ensures |r| == |s|
    ensures forall i :: 0 <= i < |s| ==> r[i] == UpperChar(s[i])
  {
    seq(|s|, i requires 0 <= i < |s| => UpperChar(s[i]))
  }

  /** `s.toLowerCase()` */
  function Lower(s: string): (r: string)
    ensures |r| == |s|
    ensures forall i :: 0 <= i < |s| ==> r[i] == LowerChar(s[i])
  {
    seq(|s|, i requires 0 <= i < |s| => LowerChar(s[i]))
  }

  /** `s.charAt(0).toUpperCase() + s.slice(1)`: `charAt(0)` of the empty string is empty. */
  function UpperFirst(s: string): (r: string)
    ensures |r| == |s|
    ensures s != "" ==> r[0] == UpperChar(s[0]) && r[1..] == s[1..]
  {
    if s == "" then "" else [UpperChar(s[0])] + s[1..]
  }

  /** Upper-casing the first letter of a suffix changes one character at most. */
  lemma UpperFirstAfter(p: string, q: string)
    ensures |p + UpperFirst(q)| == |p + q|
    ensures forall j :: 0 <= j < |p + q| && j != |p| ==> (p + UpperFirst(q))[j] == (p + q)[j]
    ensures q != "" ==> (p + UpperFirst(q))[|p|] == UpperChar(q[0])
  {
    var u := UpperFirst(q);
    forall j | |p| < j < |p + q| ensures (p + u)[j] == (p + q)[j] {
      assert (p + u)[j] == u[1..][j - |p| - 1];
      assert (p + q)[j] == q[1..][j - |p| - 1];
    }
  }

  // ---------------------------------------------------------------------------
  // Searching

  /** `d` occurs in `s` starting at index `j`. */
  ghost predicate OccursAt(s: string, d: string, j: int) {
    0 <= j && j + |d| <= |s| && s[j..j + |d|] == d
  }

  /** `d` occurs nowhere in `s`. */
  ghost predicate Free(s: string, d: string) {
    forall j :: !OccursAt(s, d, j)
  }

  /** `s.indexOf(d)`, with `None` for JavaScript's -1. */
  function IndexOf(s: string, d: string): (r: Option<nat>)
    requires |d| > 0
    ensures r.Some? ==> OccursAt(s, d, r.value) && forall j :: 0 <= j < r.value ==> !OccursAt(s, d, j)
    ensures r.None? ==> Free(s, d)
    decreases |s|
  {
    if |s| < |d| then None
    else if s[..|d|] == d then Some(0)
    else
      var rest := IndexOf(s[1..], d);
      ShiftOccurs(s, d);
      assert !OccursAt(s, d, 0) by { assert s[0..|d|] == s[..|d|]; }
      match rest
      case None => None
      case Some(k) => Some(k + 1)
  }

  lemma ShiftOccurs(s: string, d: string)
    requires |s| > 0
    ensures forall j :: 1 <= j ==> (OccursAt(s, d, j) <==> OccursAt(s[1..], d, j - 1))
  {
    forall j | 1 <= j
      ensures OccursAt(s, d, j) <==> OccursAt(s[1..], d, j - 1)
    {
      if j + |d| <= |s| {
        assert s[1..][j - 1..j - 1 + |d|] == s[j..j + |d|];
      }
    }
  }

  /** `indexOf` finds the first occurrence. */
  lemma IndexOfFirst(s: string, d: string, i: nat)
    requires |d| > 0 && OccursAt(s, d, i)
    requires forall j :: 0 <= j < i ==> !OccursAt(s, d, j)
    ensures IndexOf(s, d) == Some(i)
  {
    var r := IndexOf(s, d);
    assert r.Some?;
    assert !(r.value < i);
    assert !(r.value > i);
  }

  /** `indexOf` is -1 exactly when there is no occurrence. */
  lemma IndexOfNone(s: string, d: string)
    requires |d| > 0 && Free(s, d)
    ensures IndexOf(s, d) == None
  {
    if IndexOf(s, d).Some? {
      assert false;
    }
  }

  /** `s.includes(d)` */
  predicate Contains(s: string, d: string): (b: bool)
    requires |d| > 0
    ensures b <==> !Free(s, d)
  {
    IndexOf(s, d).Some?
  }

  /** `s.startsWith(p)` */
  predicate StartsWith(s: string, p: string): (b: bool)
    ensures b <==> |p| <= |s| && forall i :: 0 <= i < |p| ==> s[i] == p[i]
  {
    |p| <= |s| && s[..|p|] == p
  }

  lemma FreeOfChar(s: string, c: char)
    ensures Free(s, [c]) <==> c !in s
  {
    if c in s {
      var j :| 0 <= j < |s| && s[j] == c;
      assert OccursAt(s, [c], j);
    } else {
      forall j | 0 <= j < |s| ensures !OccursAt(s, [c], j) {
        assert s[j..j + 1] == [s[j]];
      }
    }
  }

  /** An occurrence that lies inside a prefix does not depend on what follows it. */
  lemma OccursInPrefix(u: string, v: string, d: string, j: int)
    requires 0 <= j && j + |d| <= |u|
    ensures OccursAt(u + v, d, j) <==> OccursAt(u, d, j)
  {
    assert (u + v)[j..j + |d|] == u[j..j + |d|];
  }

  /** Occurrences in a suffix are occurrences in the whole string, shifted. */
  lemma OccursInSuffix(s: string, d: string, k: nat)
    requires k <= |s|
    ensures forall j :: 0 <= j ==> (OccursAt(s[k..], d, j) <==> OccursAt(s, d, k + j))
  {
    forall j | 0 <= j ensures OccursAt(s[k..], d, j) <==> OccursAt(s, d, k + j) {
      if k + j + |d| <= |s| {
        assert s[k..][j..j + |d|] == s[k + j..k + j + |d|];
      }
    }
  }

  /** The first occurrence of `d` in `p + d` is the appended one: `p` and `d` do not
      overlap into an earlier match. */
  ghost predicate Separates(p: string, d: string) {
    forall j :: 0 <= j < |p| ==> !OccursAt(p + d, d, j)
  }

  lemma SeparatesFree(p: string, d: string)
    requires |d| > 0 && Separates(p, d)
    ensures Free(p, d)
  {
    forall j | OccursAt(p, d, j) ensures false {
      OccursInPrefix(p, d, d, j);
    }
  }

  lemma SeparatesSingle(p: string, c: char)
    requires c !in p
    ensures Separates(p, [c])
  {
    forall j | 0 <= j < |p| ensures !OccursAt(p + [c], [c], j) {
      assert (p + [c])[j..j + 1][0] == p[j];
    }
  }

  // ---------------------------------------------------------------------------
  // split and join

  /** `s.split(d)` for a non-empty separator: the pieces between successive
      non-overlapping occurrences found from the left. */
  function Split(s: string, d: string): (r: seq<string>)
    requires |d| > 0
    ensures |r| >= 1
    ensures forall k :: 0 <= k < |r| ==> Free(r[k], d)
    decreases |s|
  {
    match IndexOf(s, d)
    case None => [s]
    case Some(i) =>
      PrefixBeforeFirstIsFree(s, d, i);
      [s[..i]] + Split(s[i + |d|..], d)
  }

  /** The first piece, then the pieces of the rest after the first separator. */
  lemma SplitFirst(s: string, d: string, i: nat)
    requires |d| > 0 && IndexOf(s, d) == Some(i)
    ensures Split(s, d) == [s[..i]] + Split(s[i + |d|..], d)
  {
  }

  /** The first piece: all of the string, or what comes before the first separator. */
  lemma SplitHead(s: string, d: string)
    requires |d| > 0
    ensures IndexOf(s, d).None? ==> Split(s, d)[0] == s
    ensures IndexOf(s, d).Some? ==> Split(s, d)[0] == s[..IndexOf(s, d).value]
  {
  }

  lemma PrefixBeforeFirstIsFree(s: string, d: string, i: nat)
    requires |d| > 0 && IndexOf(s, d) == Some(i)
    ensures Free(s[..i], d)
  {
    forall j | OccursAt(s[..i], d, j) ensures false {
      assert s[..i][j..j + |d|] == s[j..j + |d|];
      assert OccursAt(s, d, j);
    }
  }

  /** `parts.join(d)` */
  function Join(parts: seq<string>, d: string): string {
    if |parts| == 0 then ""
    else if |parts| == 1 then parts[0]
    else parts[0] + d + Join(parts[1..], d)
  }

  /** Joining the pieces of a split restores the string. */
  lemma {:induction false} JoinSplit(s: string, d: string)
    requires |d| > 0
    ensures Join(Split(s, d), d) == s
    decreases |s|
  {
    match IndexOf(s, d)
    case None =>
    case Some(i) =>
      var t := s[i + |d|..];
      var rest := Split(t, d);
      JoinSplit(t, d);
      assert Split(s, d) == [s[..i]] + rest;
      JoinCons(s[..i], rest, d);
      assert s == s[..i] + s[i..i + |d|] + t;
  }

  lemma JoinCons(x: string, rest: seq<string>, d: string)
    requires |rest| >= 1
    ensures Join([x] + rest, d) == x + d + Join(rest, d)
  {
    assert ([x] + rest)[1..] == rest;
  }

  /** Splitting a joined list gives the list back, when no piece runs into the separator. */
  lemma {:induction false} SplitJoin(parts: seq<string>, d: string)
    requires |d| > 0 && |parts| >= 1
    requires forall k :: 0 <= k < |parts| ==> Separates(parts[k], d)
    ensures Split(Join(parts, d), d) == parts
    decreases |parts|
  {
    var p := parts[0];
    SeparatesFree(p, d);
    if |parts| == 1 {
      assert IndexOf(p, d).None?;
    } else {
      var rest := Join(parts[1..], d);
      var s := p + d + rest;
      assert s == (p + d) + rest;
      assert OccursAt(s, d, |p|) by {
        assert s[|p|..|p| + |d|] == d;
      }
      forall j | 0 <= j < |p| ensures !OccursAt(s, d, j) {
        OccursInPrefix(p + d, rest, d, j);
      }
      assert IndexOf(s, d) == Some(|p|);
      assert s[..|p|] == p && s[|p| + |d|..] == rest;
      SplitJoin(parts[1..], d);
    }
  }

  /** A character absent from a string is absent from each of its pieces. */
  lemma {:induction false} SplitPiecesAvoid(s: string, d: string, c: char)
    requires |d| > 0 && c !in s
    ensures forall k :: 0 <= k < |Split(s, d)| ==> c !in Split(s, d)[k]
    decreases |s|
  {
    match IndexOf(s, d)
    case None =>
    case Some(i) =>
      var t := s[i + |d|..];
      SplitPiecesAvoid(t, d, c);
      assert Split(s, d) == [s[..i]] + Split(t, d);
      assert forall x :: x in s[..i] ==> x in s;
      assert forall x :: x in t ==> x in s;
  }

  /** Two pieces without the separator character split apart again. */
  lemma SplitPair(a: string, b: string, c: char)
    requires c !in a && c !in b
    ensures Split(a + [c] + b, [c]) == [a, b]
  {
    var parts := [a, b];
    forall j | 0 <= j < |parts| ensures Separates(parts[j], [c]) {
      SeparatesSingle(parts[j], c);
    }
    SplitJoin(parts, [c]);
    assert parts[1..] == [b];
  }

  /** Split on one character `c`: with its first `c` at `j` and the next one at `e`
      (or `e` the end when there is none), the second piece is what lies between. */
  lemma SplitSecondPiece(r: string, c: char, j: nat, e: nat)
    requires j < e <= |r| && r[j] == c
    requires forall k :: 0 <= k < j ==> r[k] != c
    requires forall k :: j < k < e ==> r[k] != c
    requires e == |r| || r[e] == c
    ensures |Split(r, [c])| >= 2 && Split(r, [c])[1] == r[j + 1..e]
  {
    FirstCharAt(r, c, j);
    RestPiece(r, c, j, e);
    SecondOfSplit(r, [c], j, r[j + 1..e]);
  }

  /** The second piece is the first piece of what follows the first separator. */
  lemma SecondOfSplit(s: string, d: string, i: nat, p: string)
    requires |d| > 0 && IndexOf(s, d) == Some(i)
    requires Split(s[i + |d|..], d)[0] == p
    ensures |Split(s, d)| >= 2 && Split(s, d)[1] == p
  {
    SplitFirst(s, d, i);
  }

  /** After the first `c` at `j`, the first piece runs up to the next `c` at `e`. */
  lemma RestPiece(r: string, c: char, j: nat, e: nat)
    requires j < e <= |r|
    requires forall k :: j < k < e ==> r[k] != c
    requires e == |r| || r[e] == c
    ensures Split(r[j + 1..], [c])[0] == r[j + 1..e]
  {
    var t := r[j + 1..];
    assert forall k :: 0 <= k < |t| ==> t[k] == r[j + 1 + k];
    CharPiece(t, c, e - j - 1);
    assert t[..e - j - 1] == r[j + 1..e];
  }

  /** The first piece of a split on `c` ends at the first `c`, or at the end. */
  lemma CharPiece(t: string, c: char, m: nat)
    requires m <= |t|
    requires forall k :: 0 <= k < m ==> t[k] != c
    requires m == |t| || t[m] == c
    ensures Split(t, [c])[0] == t[..m]
  {
    SplitHead(t, [c]);
    if m == |t| {
      NoChar(t, c);
      assert t[..m] == t;
    } else {
      FirstCharAt(t, c, m);
    }
  }

  /** `indexOf` of one character finds its first position. */
  lemma FirstCharAt(r: string, c: char, j: nat)
    requires j < |r| && r[j] == c
    requires forall k :: 0 <= k < j ==> r[k] != c
    ensures IndexOf(r, [c]) == Some(j)
  {
    assert OccursAt(r, [c], j) by { assert r[j..j + 1] == [c]; }
    forall k | 0 <= k < j ensures !OccursAt(r, [c], k) {
      assert r[k..k + 1][0] == r[k];
    }
    IndexOfFirst(r, [c], j);
  }

  /** `indexOf` of a character the text does not hold is -1. */
  lemma NoChar(t: string, c: char)
    requires forall k :: 0 <= k < |t| ==> t[k] != c
    ensures IndexOf(t, [c]) == None
  {
    FreeOfChar(t, c);
    IndexOfNone(t, [c]);
  }

  /** A string splits into one piece exactly when the separator does not occur in it. */
  lemma SplitSingle(s: string, d: string)
    requires |d| > 0
    ensures Split(s, d) == [s] <==> Free(s, d)
  {
    match IndexOf(s, d)
    case None =>
    case Some(i) =>
      assert |Split(s, d)| >= 2;
  }

  // ---------------------------------------------------------------------------
  // replace and trim

  /** `s.replace(/a/g, b)` for one character `a`. */
  function ReplaceAll(s: string, a: char, b: char): (r: string)
    ensures |r| == |s|
    ensures forall i :: 0 <= i < |s| ==> r[i] == if s[i] == a then b else s[i]
  {
    seq(|s|, i requires 0 <= i < |s| => if s[i] == a then b else s[i])
  }

  /** ECMAScript WhiteSpace and LineTerminator code points, which `trim` removes:
      tab, line feed, vertical tab, form feed, carriage return, space, no-break
      space, the Unicode space separators, line and paragraph separator, and the
      byte order mark. */
  predicate IsWhiteSpace(c: char) {
    '\t' <= c <= '\r' || c == ' ' || c == '\U{A0}' || c == '\U{1680}'
    || '\U{2000}' <= c <= '\U{200A}' || c == '\U{2028}' || c == '\U{2029}'
    || c == '\U{202F}' || c == '\U{205F}' || c == '\U{3000}' || c == '\U{FEFF}'
  }

  /** The number of white-space characters `s` starts with. */
  function LeadingWhiteSpace(s: string): (n: nat)
    ensures n <= |s|
    ensures forall i :: 0 <= i < n ==> IsWhiteSpace(s[i])
    ensures n < |s| ==> !IsWhiteSpace(s[n])
    decreases |s|
  {
    if s != "" && IsWhiteSpace(s[0]) then 1 + LeadingWhiteSpace(s[1..]) else 0
  }

  /** The end of `s[lo..e]` once its trailing white space is cut. */
  function TextEnd(s: string, lo: nat, e: nat): (r: nat)
    requires lo <= e <= |s|
    ensures lo <= r <= e
    ensures forall i :: r <= i < e ==> IsWhiteSpace(s[i])
    ensures lo < r ==> !IsWhiteSpace(s[r - 1])
    decreases e
  {
    if lo < e && IsWhiteSpace(s[e - 1]) then TextEnd(s, lo, e - 1) else e
  }

  /** `s.trim()`: what is left of `s` once its leading and its trailing white space are cut. */
  function Trim(s: string): (r: string)
    ensures r == "" <==> forall i :: 0 <= i < |s| ==> IsWhiteSpace(s[i])
    ensures r != "" ==> !IsWhiteSpace(r[0]) && !IsWhiteSpace(r[|r| - 1])
    ensures LeadingWhiteSpace(s) + |r| <= |s|
    ensures r == s[LeadingWhiteSpace(s)..LeadingWhiteSpace(s) + |r|]
    ensures forall i :: LeadingWhiteSpace(s) + |r| <= i < |s| ==> IsWhiteSpace(s[i])
  {
    var a := LeadingWhiteSpace(s);
    s[a..TextEnd(s, a, |s|)]
  }
}
