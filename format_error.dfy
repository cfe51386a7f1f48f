/** `FormatError`: turns an error token such as `invalid_url` into a label such as
    `Invalid URL`. Only the first space-separated word is formatted; the rest of the
    text is kept as it is. */
module FormatError {
  import opened Wrappers
  import opened Text

  /** The message of the Error thrown for an empty argument. */
  const NotANonEmptyString := "Input must be a non-empty string"

  /** `word.toLowerCase().includes('url')` */
  predicate MentionsUrl(word: string) {
    Contains(Lower(word), "url")
  }

  /** The `map` callback: a segment that mentions a URL is upper-cased whole, any other
      segment has only its first character upper-cased. */
  function FormatSegment(word: string): (r: string)
    ensures |r| == |word|
    ensures forall i :: 0 <= i < |word| && (i == 0 || MentionsUrl(word)) ==> r[i] == UpperChar(word[i])
    ensures forall i :: 0 < i < |word| && !MentionsUrl(word) ==> r[i] == word[i]
  {
    if MentionsUrl(word) then Upper(word) else UpperFirst(word)
  }

  /** `words.map(FormatSegment)` */
  function FormatSegments(words: seq<string>): (r: seq<string>)
    ensures |r| == |words|
    ensures forall k :: 0 <= k < |words| ==> r[k] == FormatSegment(words[k])
  {
    seq(|words|, k requires 0 <= k < |words| => FormatSegment(words[k]))
  }

  /** The formatting of the first word, `formattedFirst`. */
  function FormatFirst(first: string): (r: string)
    ensures |r| == |first|
  {
    if Contains(first, "_") then
      var spaced := ReplaceAll(first, '_', ' ');
      var parts := Split(spaced, " ");
      JoinSplit(spaced, " ");
      PartsWithout(parts);
      JoinCorrespond(parts, FormatSegments(parts));
      Join(FormatSegments(parts), " ")
    else
      UpperFirst(first)
  }

  /** `FormatError(err)`; `Failure` is the Error it throws. */
  function FormatError(err: string): (r: Result<string, string>)
    ensures r.Failure? <==> err == ""
    ensures r.Failure? ==> r.error == NotANonEmptyString
  {
    if err == "" then Failure(NotANonEmptyString)
    else
      var words := Split(err, " ");
      var first, rest := words[0], words[1..];
      if first == "" then Success(Join(rest, " "))
      else Success(FormatFirst(first) + (if |rest| > 0 then " " + Join(rest, " ") else ""))
  }

  /** The first word of a text: everything before its first space. */
  function FirstWord(err: string): (w: string)
    ensures |w| <= |err| && w == err[..|w|]
    ensures ' ' !in w
    ensures |w| < |err| ==> err[|w|] == ' '
  {
    var words := Split(err, " ");
    FreeOfChar(words[0], ' ');
    match IndexOf(err, " ")
    case None => err
    case Some(i) =>
      assert err[i..i + 1] == " ";
      err[..i]
  }

  // ---------------------------------------------------------------------------
  // What the code promises

  /** A text that starts with a space comes back without that first character. */
  lemma {:induction false} LeadingSpaceDropped(err: string)
    requires err != "" && err[0] == ' '
    ensures FormatError(err) == Success(err[1..])
  {
    assert OccursAt(err, " ", 0) by { assert err[0..1] == " "; }
    assert IndexOf(err, " ") == Some(0);
    assert Split(err, " ") == [""] + Split(err[1..], " ");
    JoinSplit(err[1..], " ");
  }

  /** Otherwise the first word is formatted, keeping its length, and all that follows it
      is kept character for character. */
  lemma {:induction false} RestKept(err: string)
    requires err != "" && err[0] != ' '
    ensures var w := FirstWord(err);
            w != "" && FormatError(err).Success?
            && |FormatFirst(w)| == |w|
            && FormatError(err).value == FormatFirst(w) + err[|w|..]
            && |FormatError(err).value| == |err|
  {
    var w := FirstWord(err);
    match IndexOf(err, " ")
    case None =>
      assert Split(err, " ") == [err];
    case Some(i) =>
      assert i != 0 by {
        assert err[i..i + 1] == " ";
      }
      var t := err[i + 1..];
      assert Split(err, " ") == [err[..i]] + Split(t, " ");
      JoinSplit(t, " ");
      assert err[i..] == " " + t by {
        assert err[i..i + 1] == " ";
      }
  }

  /** With no underscore, only the first character of the first word is upper-cased. */
  lemma NoUnderscore(first: string)
    requires first != "" && '_' !in first
    ensures var f := FormatFirst(first);
            |f| == |first| && f[0] == UpperChar(first[0]) && f[1..] == first[1..]
  {
    FreeOfChar(first, '_');
  }

  /** With underscores, each one becomes exactly one space and no other character
      becomes a space, so consecutive underscores give consecutive spaces; no
      underscore is left. */
  lemma UnderscoresBecomeSpaces(first: string)
    requires ' ' !in first && '_' in first
    ensures var f := FormatFirst(first);
            |f| == |first|
            && (forall i :: 0 <= i < |f| ==> (f[i] == ' ' <==> first[i] == '_'))
            && '_' !in f
  {
    FreeOfChar(first, '_');
    var spaced := ReplaceAll(first, '_', ' ');
    var parts := Split(spaced, " ");
    var formatted := FormatSegments(parts);
    JoinSplit(spaced, " ");
    PartsWithout(parts);
    JoinCorrespond(parts, formatted);
    SplitPiecesAvoid(spaced, " ", '_');
    forall k | 0 <= k < |formatted| ensures '_' !in formatted[k] {
      var f := formatted[k];
      forall i | 0 <= i < |f| ensures f[i] != '_' {
        assert parts[k][i] != '_';
      }
    }
    JoinAvoids(formatted, '_');
  }

  /** With underscores, the space-separated words of the formatted first word are the
      formatted underscore-separated segments of the input, one for one. */
  lemma Segments(first: string)
    requires ' ' !in first && '_' in first
    ensures Split(FormatFirst(first), " ") == FormatSegments(Split(first, "_"))
  {
    FreeOfChar(first, '_');
    var spaced := ReplaceAll(first, '_', ' ');
    SplitReplaced(first, '_', ' ');
    var parts := Split(spaced, " ");
    var formatted := FormatSegments(parts);
    PartsWithout(parts);
    forall k | 0 <= k < |formatted| ensures Separates(formatted[k], " ") {
      SeparatesSingle(formatted[k], ' ');
    }
    SplitJoin(formatted, " ");
  }

  // ---------------------------------------------------------------------------
  // Helpers

  /** Pieces of a split on spaces hold no space, and no underscore once they were replaced. */
  lemma PartsWithout(parts: seq<string>)
    requires forall k :: 0 <= k < |parts| ==> Free(parts[k], " ")
    ensures forall k :: 0 <= k < |parts| ==> ' ' !in parts[k]
    ensures forall k :: 0 <= k < |parts| ==> ' ' !in FormatSegment(parts[k])
  {
    forall k | 0 <= k < |parts| ensures ' ' !in parts[k] && ' ' !in FormatSegment(parts[k]) {
      FreeOfChar(parts[k], ' ');
      var f := FormatSegment(parts[k]);
      forall i | 0 <= i < |f| ensures f[i] != ' ' {
        assert parts[k][i] != ' ';
      }
    }
  }

  /** Joining two lists of pieces of the same lengths with spaces puts the spaces at the
      same places, when no piece has a space of its own. */
  lemma {:induction false} JoinCorrespond(xs: seq<string>, ys: seq<string>)
    requires |xs| == |ys|
    requires forall k :: 0 <= k < |xs| ==> |xs[k]| == |ys[k]| && ' ' !in xs[k] && ' ' !in ys[k]
    ensures |Join(xs, " ")| == |Join(ys, " ")|
    ensures forall i :: 0 <= i < |Join(xs, " ")| ==> (Join(xs, " ")[i] == ' ' <==> Join(ys, " ")[i] == ' ')
  {
    if |xs| > 1 {
      JoinCorrespond(xs[1..], ys[1..]);
      var a, b := Join(xs[1..], " "), Join(ys[1..], " ");
      assert Join(xs, " ") == xs[0] + " " + a;
      assert Join(ys, " ") == ys[0] + " " + b;
      forall i | 0 <= i < |Join(xs, " ")| ensures Join(xs, " ")[i] == ' ' <==> Join(ys, " ")[i] == ' ' {
        if i < |xs[0]| {
          assert Join(xs, " ")[i] == xs[0][i] && Join(ys, " ")[i] == ys[0][i];
        } else if i > |xs[0]| {
          assert Join(xs, " ")[i] == a[i - |xs[0]| - 1] && Join(ys, " ")[i] == b[i - |xs[0]| - 1];
        }
      }
    }
  }

  /** A character other than the space that no piece holds is not in their join. */
  lemma {:induction false} JoinAvoids(ys: seq<string>, c: char)
    requires c != ' '
    requires forall k :: 0 <= k < |ys| ==> c !in ys[k]
    ensures c !in Join(ys, " ")
  {
    if |ys| > 1 {
      JoinAvoids(ys[1..], c);
    }
  }

  /** Splitting after replacing every `a` by `b` is splitting on `a`, when `b` was absent. */
  lemma {:induction false} SplitReplaced(s: string, a: char, b: char)
    requires b !in s
    ensures Split(ReplaceAll(s, a, b), [b]) == Split(s, [a])
    decreases |s|
  {
    var r := ReplaceAll(s, a, b);
    ReplacedOccurs(s, a, b);
    SameOccurrences(r, [b], s, [a]);
    match IndexOf(s, [a])
    case None =>
      ReplaceKeeps(s, a, b, |s|);
      assert r == r[..|s|] && s == s[..|s|];
    case Some(i) =>
      ReplaceKeeps(s, a, b, i);
      SplitFirst(s, [a], i);
      SplitFirst(r, [b], i);
      assert r[i + 1..] == ReplaceAll(s[i + 1..], a, b);
      SplitReplaced(s[i + 1..], a, b);
  }

  /** `b` takes the place of `a` position for position. */
  lemma ReplacedOccurs(s: string, a: char, b: char)
    requires b !in s
    ensures forall j :: OccursAt(ReplaceAll(s, a, b), [b], j) <==> OccursAt(s, [a], j)
  {
    var r := ReplaceAll(s, a, b);
    forall j ensures OccursAt(r, [b], j) <==> OccursAt(s, [a], j) {
      if 0 <= j < |s| {
        assert r[j..j + 1] == [r[j]] && s[j..j + 1] == [s[j]];
      }
    }
  }

  /** Before the first `a` the replacement changes nothing. */
  lemma ReplaceKeeps(s: string, a: char, b: char, n: nat)
    requires n <= |s| && forall j :: 0 <= j < n ==> !OccursAt(s, [a], j)
    ensures ReplaceAll(s, a, b)[..n] == s[..n]
  {
    var r := ReplaceAll(s, a, b);
    forall j | 0 <= j < n ensures r[j] == s[j] {
      assert !OccursAt(s, [a], j);
      assert s[j..j + 1] == [s[j]];
    }
  }

  /** `indexOf` depends only on where the separator occurs. */
  lemma SameOccurrences(s: string, d: string, t: string, e: string)
    requires |d| > 0 && |e| > 0
    requires forall j :: OccursAt(s, d, j) <==> OccursAt(t, e, j)
    ensures IndexOf(s, d) == IndexOf(t, e)
  {
    var a := IndexOf(s, d);
    if a.Some? {
      IndexOfFirst(t, e, a.value);
    } else {
      IndexOfNone(t, e);
    }
  }

  // ---------------------------------------------------------------------------
  // The cases of the tests

  /** A first word made of two segments `a_b`, with nothing after it, is formatted
      segment by segment, the underscore becoming a space. */
  lemma TwoSegments(a: string, b: string)
    requires a != "" && ' ' !in a && ' ' !in b && '_' !in a && '_' !in b
    ensures FormatError(a + "_" + b) == Success(FormatSegment(a) + " " + FormatSegment(b))
  {
    var err := a + "_" + b;
    SingleWord(err);
    FirstOfTwo(a, b);
  }

  /** A text without a space is one word, formatted whole. */
  lemma SingleWord(err: string)
    requires err != "" && ' ' !in err
    ensures FormatError(err) == Success(FormatFirst(err))
  {
    assert " " == [' '];
    FreeOfChar(err, ' ');
    SplitSingle(err, " ");
    var words := Split(err, " ");
    assert words[1..] == [];
    assert FormatFirst(err) + "" == FormatFirst(err);
  }

  lemma FirstOfTwo(a: string, b: string)
    requires ' ' !in a && ' ' !in b && '_' !in a && '_' !in b
    ensures FormatFirst(a + "_" + b) == FormatSegment(a) + " " + FormatSegment(b)
  {
    var first := a + "_" + b;
    HasUnderscore(a, b);
    var spaced := ReplaceAll(first, '_', ' ');
    ReplacedPair(a, b);
    assert " " == [' '];
    SplitPair(a, b, ' ');
    assert Split(spaced, " ") == [a, b];
    PairFormatted(a, b);
  }

  lemma HasUnderscore(a: string, b: string)
    ensures Contains(a + "_" + b, "_")
  {
    var first := a + "_" + b;
    assert first[|a|] == '_';
    assert "_" == ['_'];
    FreeOfChar(first, '_');
  }

  lemma PairFormatted(a: string, b: string)
    ensures Join(FormatSegments([a, b]), " ") == FormatSegment(a) + " " + FormatSegment(b)
  {
    var parts := FormatSegments([a, b]);
    assert parts == [FormatSegment(a), FormatSegment(b)];
    assert parts[1..] == [FormatSegment(b)];
  }

  lemma ReplacedPair(a: string, b: string)
    requires '_' !in a && '_' !in b
    ensures ReplaceAll(a + "_" + b, '_', ' ') == a + " " + b
  {
  }

  /** The tests' `invalid_url`: "Invalid URL". */
  lemma ExampleInvalidUrl(a: string, b: string)
    requires a == "invalid" && b == "url"
    ensures FormatError(a + "_" + b) == Success("Invalid" + " " + "URL")
  {
    TwoSegments(a, b);
    SegmentInvalid(a);
    SegmentUrl(b);
  }

  lemma SegmentUrl(w: string)
    requires w == "url"
    ensures FormatSegment(w) == "URL"
  {
    assert Lower(w) == w;
    assert OccursAt(w, "url", 0);
  }

  lemma SegmentInvalid(w: string)
    requires w == "invalid"
    ensures FormatSegment(w) == "Invalid"
  {
    assert Lower(w) == w;
    forall j | 0 <= j ensures !OccursAt(w, "url", j) {
      if j + 3 <= |w| {
        assert w[j..j + 3][0] == w[j];
      }
    }
  }
}
