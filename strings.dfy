/** `capitalizeFirstLetter` from the string utilities: upper-case the first letter
    of a text, or, in error mode, the first letter after the first `": "`. */
module Strings {
  import opened Wrappers
  import opened Text

  /** The separator error mode splits on. */
  const ErrorDelimiter := ": "

  /** The message V8 gives the TypeError thrown when error mode reads `charAt` of the
      missing second piece. It has no `": "` itself. */
  const MissingPieceError := "Cannot read " + "properties " + "of undefined " + "(reading 'charAt')"

  /** `capitalizeFirstLetter(str, isError)`. `None` stands for `undefined`, an absent
      `isError` for `false`, and `Failure` for the TypeError the code throws. */
  function CapitalizeFirstLetter(str: Option<string>, isError: bool): (r: Result<string, string>)
    ensures str.None? || str.value == "" ==> r == Success("")
    ensures !isError && str.Some? ==>
              r.Success? && |r.value| == |str.value|
              && (str.value != "" ==> r.value[0] == UpperChar(str.value[0]) && r.value[1..] == str.value[1..])
    ensures isError && str.Some? && str.value != "" ==> (r.Failure? <==> Free(str.value, ErrorDelimiter))
    ensures r.Failure? ==> r.error == MissingPieceError
  {
    if str.None? || str.value == "" then Success("")
    else if !isError then Success(UpperFirst(str.value))
    else
      var parts := Split(str.value, ErrorDelimiter);
      SplitSingle(str.value, ErrorDelimiter);
      if |parts| < 2 then Failure(MissingPieceError)
      else Success(parts[0] + ErrorDelimiter + UpperFirst(parts[1]))
  }

  /** The end of the piece after the first delimiter at `i`: the next delimiter, or the end. */
  function SecondPieceEnd(s: string, i: nat): (e: nat)
    requires i + |ErrorDelimiter| <= |s|
    ensures i + |ErrorDelimiter| <= e <= |s|
    ensures Free(s[i + |ErrorDelimiter|..e], ErrorDelimiter)
    ensures e < |s| ==> OccursAt(s, ErrorDelimiter, e)
  {
    var t := s[i + |ErrorDelimiter|..];
    match IndexOf(t, ErrorDelimiter)
    case None =>
      assert s[i + |ErrorDelimiter|..|s|] == t;
      |s|
    case Some(k) =>
      PrefixBeforeFirstIsFree(t, ErrorDelimiter, k);
      assert t[..k] == s[i + 2..i + 2 + k];
      assert t[k..k + 2] == s[i + 2 + k..i + 2 + k + 2];
      i + |ErrorDelimiter| + k
  }

  /** Error mode keeps the text before the first `": "` and the delimiter, upper-cases
      the first letter of the piece up to the next `": "`, and drops everything from
      that second delimiter on. */
  lemma {:induction false} ErrorModeShape(s: string, i: nat)
    requires IndexOf(s, ErrorDelimiter) == Some(i)
    ensures CapitalizeFirstLetter(Some(s), true)
            == Success(s[..i] + ErrorDelimiter + UpperFirst(s[i + 2..SecondPieceEnd(s, i)]))
  {
    var d := ErrorDelimiter;
    SplitFirst(s, d, i);
    SecondPiece(s, i);
    var parts := Split(s, d);
    assert |parts| >= 2 && parts[0] == s[..i] && parts[1] == s[i + 2..SecondPieceEnd(s, i)];
    ErrorModeParts(s);
  }

  /** The first piece of what follows the first delimiter ends where `SecondPieceEnd` says. */
  lemma SecondPiece(s: string, i: nat)
    requires i + |ErrorDelimiter| <= |s|
    ensures Split(s[i + 2..], ErrorDelimiter)[0] == s[i + 2..SecondPieceEnd(s, i)]
  {
    var t := s[i + 2..];
    SplitHead(t, ErrorDelimiter);
    match IndexOf(t, ErrorDelimiter)
    case None =>
    case Some(k) =>
      assert OccursAt(t, ErrorDelimiter, k);
      assert t[..k] == s[i + 2..i + 2 + k];
  }

  /** Error mode on a non-empty text, in terms of its pieces. */
  lemma ErrorModeParts(s: string)
    requires s != ""
    ensures var parts := Split(s, ErrorDelimiter);
            CapitalizeFirstLetter(Some(s), true)
            == if |parts| < 2 then Failure(MissingPieceError)
               else Success(parts[0] + ErrorDelimiter + UpperFirst(parts[1]))
  {
  }

  /** With no second `": "`, error mode upper-cases the first letter of all that
      follows the first one. */
  lemma ErrorModeLast(s: string, i: nat)
    requires IndexOf(s, ErrorDelimiter) == Some(i)
    requires Free(s[i + 2..], ErrorDelimiter)
    ensures CapitalizeFirstLetter(Some(s), true) == Success(s[..i] + ErrorDelimiter + UpperFirst(s[i + 2..]))
  {
    ErrorModeShape(s, i);
    var e := SecondPieceEnd(s, i);
    OccursInSuffix(s, ErrorDelimiter, i + 2);
    assert !OccursAt(s, ErrorDelimiter, (i + 2) + (e - (i + 2)));
    assert e == |s|;
    assert s[i + 2..e] == s[i + 2..];
  }

  /** With exactly one `": "`, error mode changes only the character right after it. */
  lemma SingleDelimiter(s: string, i: nat)
    requires IndexOf(s, ErrorDelimiter) == Some(i)
    requires Free(s[i + 2..], ErrorDelimiter)
    ensures var r := CapitalizeFirstLetter(Some(s), true);
            r.Success? && |r.value| == |s|
            && (forall j :: 0 <= j < |s| && j != i + 2 ==> r.value[j] == s[j])
            && (i + 2 < |s| ==> r.value[i + 2] == UpperChar(s[i + 2]))
  {
    ErrorModeLast(s, i);
    assert s[i..i + 2] == ErrorDelimiter;
    OneCharacterChanged(s, i, s[..i] + ErrorDelimiter + UpperFirst(s[i + 2..]));
  }

  lemma OneCharacterChanged(s: string, i: nat, v: string)
    requires i + 2 <= |s| && s[i..i + 2] == ErrorDelimiter
    requires v == s[..i] + ErrorDelimiter + UpperFirst(s[i + 2..])
    ensures |v| == |s|
    ensures forall j :: 0 <= j < |s| && j != i + 2 ==> v[j] == s[j]
    ensures i + 2 < |s| ==> v[i + 2] == UpperChar(s[i + 2])
  {
    var q := s[i + 2..];
    var p := s[..i] + ErrorDelimiter;
    assert s[..i + 2] == p by {
      assert s[..i + 2] == s[..i] + s[i..i + 2];
    }
    assert s == p + q by {
      assert s == s[..i + 2] + q;
    }
    UpperFirstAfter(p, q);
  }

  /** Whatever follows it, the text before the first `": "` comes back unchanged. */
  lemma PrefixKept(s: string, i: nat)
    requires IndexOf(s, ErrorDelimiter) == Some(i)
    ensures var r := CapitalizeFirstLetter(Some(s), true);
            r.Success? && i + 2 <= |r.value| && r.value[..i] == s[..i] && r.value[i..i + 2] == ErrorDelimiter
  {
    ErrorModeShape(s, i);
    var v := s[..i] + ErrorDelimiter + UpperFirst(s[i + 2..SecondPieceEnd(s, i)]);
    PrefixOfConcat(s[..i], UpperFirst(s[i + 2..SecondPieceEnd(s, i)]), v);
  }

  lemma PrefixOfConcat(p: string, u: string, v: string)
    requires v == p + ErrorDelimiter + u
    ensures |p| + 2 <= |v| && v[..|p|] == p && v[|p|..|p| + 2] == ErrorDelimiter
  {
  }

  /** Plain mode reaches a fixed point after one application. */
  lemma PlainIdempotent(s: string)
    ensures var once := CapitalizeFirstLetter(Some(s), false).value;
            CapitalizeFirstLetter(Some(once), false) == Success(once)
  {
  }

  /** A text with one `": "` and no other colon: only the letter after it changes. */
  lemma OnlyDelimiter(a: string, b: string)
    requires ':' !in a && ':' !in b
    ensures CapitalizeFirstLetter(Some(a + ErrorDelimiter + b), true)
            == Success(a + ErrorDelimiter + UpperFirst(b))
  {
    var s := a + ErrorDelimiter + b;
    FirstDelimiterAt(s, a, b);
    Pieces(a, b, s);
    NoColonNoDelimiter(b);
    ErrorModeLast(s, |a|);
  }

  /** A third piece is lost: `a: b: c` comes back as `a: B`. */
  lemma ThirdPieceDropped(a: string, b: string, c: string)
    requires ':' !in a && ':' !in b
    ensures CapitalizeFirstLetter(Some(a + ErrorDelimiter + b + ErrorDelimiter + c), true)
            == Success(a + ErrorDelimiter + UpperFirst(b))
  {
    var t := b + ErrorDelimiter + c;
    assert a + ErrorDelimiter + b + ErrorDelimiter + c == a + ErrorDelimiter + t;
    ThirdPieceAfter(a, t, b, c);
  }

  lemma ThirdPieceAfter(a: string, t: string, b: string, c: string)
    requires ':' !in a && ':' !in b && t == b + ErrorDelimiter + c
    ensures CapitalizeFirstLetter(Some(a + ErrorDelimiter + t), true) == Success(a + ErrorDelimiter + UpperFirst(b))
  {
    var s := a + ErrorDelimiter + t;
    FirstDelimiterAt(s, a, t);
    FirstDelimiterAt(t, b, c);
    Pieces(a, t, s);
    Pieces(b, c, t);
    ErrorModeBetween(s, a, t, b);
  }

  /** With the rest `t` after the first `": "` holding another one right after the
      piece `b`, error mode keeps `b` and drops what follows. */
  lemma ErrorModeBetween(s: string, a: string, t: string, b: string)
    requires IndexOf(s, ErrorDelimiter) == Some(|a|) && |a| + 2 <= |s|
    requires s[..|a|] == a && s[|a| + 2..] == t
    requires IndexOf(t, ErrorDelimiter) == Some(|b|) && t[..|b|] == b
    ensures CapitalizeFirstLetter(Some(s), true) == Success(a + ErrorDelimiter + UpperFirst(b))
  {
    SplitFirst(s, ErrorDelimiter, |a|);
    SplitHead(t, ErrorDelimiter);
    var parts := Split(s, ErrorDelimiter);
    assert |parts| >= 2 && parts[0] == a && parts[1] == b;
    ErrorModeParts(s);
  }

  lemma Pieces(a: string, b: string, s: string)
    requires s == a + ErrorDelimiter + b
    ensures s[..|a|] == a && s[|a| + 2..] == b
  {
  }

  /** The tests expect a text without `": "` to come back unchanged; the code throws. */
  lemma ExampleNoDelimiterThrows(s: string)
    requires s == "something went wrong"
    ensures CapitalizeFirstLetter(Some(s), true) == Failure(MissingPieceError)
  {
    NoColonNoDelimiter(s);
  }

  lemma NoColonNoDelimiter(s: string)
    requires ':' !in s
    ensures Free(s, ErrorDelimiter)
  {
    forall j | 0 <= j && j + 2 <= |s| ensures !OccursAt(s, ErrorDelimiter, j) {
      assert s[j..j + 2][0] == s[j];
    }
  }

  lemma FirstDelimiterAt(s: string, a: string, b: string)
    requires s == a + ErrorDelimiter + b && ':' !in a
    ensures IndexOf(s, ErrorDelimiter) == Some(|a|)
  {
    forall j | 0 <= j < |a| ensures !OccursAt(s, ErrorDelimiter, j) {
      assert s[j] == a[j];
      if j + 2 <= |s| {
        assert s[j..j + 2][0] == s[j];
      }
    }
    assert s[|a|..|a| + 2] == ErrorDelimiter;
    assert OccursAt(s, ErrorDelimiter, |a|);
  }
}
