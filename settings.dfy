/** The settings stored in local storage and the cookie that remembers the key. The
    storage is a map from keys to stored strings that calls take and return, the
    cookie a string, and the JSON conversion a pair of functions given as
    parameters. */
module Settings {
  import opened Wrappers
  import opened Text

  const SettingsKey := "link-shortener-settings"
  const KeyCookieName := "link-shortener-key"

  /** The user's settings. */
  datatype Settings = Settings(saveKey: bool)

  /** The settings used when none are stored. */
  function DefaultSettings(): (s: Settings)
    ensures !s.saveKey
  {
    Settings(false)
  }

  /** `saveSettings(settings)`: the storage with the settings stored as `stringify`
      renders them. */
  function SaveSettings(store: map<string, string>, settings: Settings, stringify: Settings -> string)
    : (after: map<string, string>)
    ensures SettingsKey in after && after[SettingsKey] == stringify(settings)
    ensures forall k :: k in store && k != SettingsKey ==> k in after && after[k] == store[k]
    ensures forall k :: k in after ==> k in store || k == SettingsKey
  {
    store[SettingsKey := stringify(settings)]
  }

  /** `loadSettings()`: the stored settings parsed with `parse`, or the default when
      nothing, or the empty string, is stored. */
  function LoadSettings(store: map<string, string>, parse: string -> Settings): (s: Settings)
    ensures SettingsKey !in store || store[SettingsKey] == "" ==> s == DefaultSettings()
    ensures SettingsKey in store && store[SettingsKey] != "" ==> s == parse(store[SettingsKey])
  {
    if SettingsKey in store && store[SettingsKey] != "" then parse(store[SettingsKey])
    else DefaultSettings()
  }

  /** Saved settings load back, whatever else the storage holds, when `parse` undoes
      `stringify` and `stringify` never returns the empty string (a JSON text never
      is empty). */
  lemma SettingsRoundTrip(store: map<string, string>, settings: Settings,
                          stringify: Settings -> string, parse: string -> Settings)
    requires parse(stringify(settings)) == settings && stringify(settings) != ""
    ensures LoadSettings(SaveSettings(store, settings, stringify), parse) == settings
  {
  }

  // ---------------------------------------------------------------------------
  // The key cookie

  /** The decimal digits of a natural number. */
  function Decimal(n: nat): (r: string)
    ensures |r| >= 1
    decreases n
  {
    if n < 10 then [('0' as int + n) as char]
    else Decimal(n / 10) + [('0' as int + n % 10) as char]
  }

  /** One year in seconds. */
  const OneYear: nat := 60 * 60 * 24 * 365

  lemma OneYearDecimal()
    ensures Decimal(OneYear) == "31536000"
  {
    assert Decimal(3) == "3";
    assert Decimal(31) == "31";
    assert Decimal(315) == "315";
    assert Decimal(3153) == "3153";
    assert Decimal(31536) == "31536";
    assert Decimal(315360) == "315360";
    assert Decimal(3153600) == "3153600";
    assert OneYear == 31536000;
    assert Decimal(31536000) == "31536000";
  }

  /** The row that names the cookie and gives its value. */
  function KeyRow(key: string): (row: string)
    ensures StartsWith(row, KeyCookieName) && |row| > |KeyCookieName| && row[|KeyCookieName|] == '='
    ensures row[|KeyCookieName| + 1..] == key
  {
    var row := KeyCookieName + "=" + key;
    assert row[..|KeyCookieName|] == KeyCookieName;
    row
  }

  /** The attributes `saveKeyCookie` puts after the name and value, in order. */
  function SaveAttributes(): seq<string> {
    ["path=/", "max-age=" + Decimal(OneYear), "SameSite=None", "Secure"]
  }

  /** `saveKeyCookie(key)`: the text assigned to `document.cookie`, the row and the
      attributes joined by `"; "`; the maximum age is `"31536000"` by
      `OneYearDecimal`. The key is put in as it is, without any encoding. */
  function SaveKeyCookie(key: string): (cookie: string)
    ensures cookie == KeyRow(key) + "; " + "path=/" + "; " + ("max-age=" + Decimal(OneYear))
                      + "; " + "SameSite=None" + "; " + "Secure"
  {
    var parts := [KeyRow(key)] + SaveAttributes();
    JoinFive(parts, "; ");
    Join(parts, "; ")
  }

  lemma JoinFive(parts: seq<string>, d: string)
    requires |parts| == 5
    ensures Join(parts, d) == parts[0] + d + parts[1] + d + parts[2] + d + parts[3] + d + parts[4]
  {
    var p1, p2, p3 := parts[1..], parts[2..], parts[3..];
    assert p1[1..] == p2 && p2[1..] == p3 && p3[1..] == [parts[4]];
    assert Join(p3, d) == parts[3] + d + parts[4];
    assert Join(p2, d) == parts[2] + d + Join(p3, d);
    assert Join(p1, d) == parts[1] + d + Join(p2, d);
  }

  const ExpiredAttribute := "expires=Thu, 01 Jan 1970 00:00:00 GMT"

  /** `deleteKeyCookie()`: the text assigned to `document.cookie` to drop the cookie:
      the row with an empty value, then the root path and an expiry at the epoch,
      joined by `"; "`. */
  function DeleteKeyCookie(): (cookie: string)
    ensures cookie == Join([KeyRow(""), "path=/", ExpiredAttribute], "; ")
  {
    var rows := [KeyRow(""), "path=/", ExpiredAttribute];
    assert rows[1..][1..] == [ExpiredAttribute];
    assert Join(rows[1..], "; ") == "path=/" + "; " + ExpiredAttribute;
    KeyCookieName + "=" + "; " + "path=/" + "; " + ExpiredAttribute
  }

  /** What `loadKeyCookie` returns: `null`, `undefined` (a matching row without
      `=`), or a string. */
  datatype CookieLookup = Missing | NoValue | Value(value: string)

  /** `rows.find(row => row.startsWith(prefix))`, as an index. */
  function FindRow(rows: seq<string>, prefix: string): (r: Option<nat>)
    ensures r.Some? ==> r.value < |rows| && StartsWith(rows[r.value], prefix)
    ensures r.Some? ==> forall j :: 0 <= j < r.value ==> !StartsWith(rows[j], prefix)
    ensures r.None? ==> forall j :: 0 <= j < |rows| ==> !StartsWith(rows[j], prefix)
    decreases |rows|
  {
    if rows == [] then None
    else if StartsWith(rows[0], prefix) then Some(0)
    else match FindRow(rows[1..], prefix)
      case None => None
      case Some(k) => Some(k + 1)
  }

  /** `loadKeyCookie()` for the text `document.cookie` reads as. */
  function LoadKeyCookie(cookie: string): (r: CookieLookup)
    ensures cookie == "" ==> r == Missing
    ensures r == Missing <==> cookie == "" || FindRow(Split(cookie, "; "), KeyCookieName).None?
    ensures r.Value? ==> '=' !in r.value
  {
    if cookie == "" then Missing
    else
      match FindRow(Split(cookie, "; "), KeyCookieName)
      case None => Missing
      case Some(i) =>
        var fields := Split(Split(cookie, "; ")[i], "=");
        if |fields| < 2 then NoValue
        else
          FreeOfChar(fields[1], '=');
          Value(fields[1])
  }

  // ---------------------------------------------------------------------------
  // Reading the cookie back

  /** A row without `"; "` cannot run into the separator that follows it. */
  lemma RowSeparates(row: string)
    requires Free(row, "; ")
    ensures Separates(row, "; ")
  {
    forall j | 0 <= j < |row| ensures !OccursAt(row + "; ", "; ", j) {
      if j + 2 <= |row| {
        assert (row + "; ")[j..j + 2] == row[j..j + 2];
        assert !OccursAt(row, "; ", j);
      } else {
        assert (row + "; ")[j + 1] == ';';
      }
    }
  }

  lemma NoSemicolonFree(p: string)
    requires ';' !in p
    ensures Free(p, "; ")
  {
    forall j | 0 <= j && j + 2 <= |p| ensures !OccursAt(p, "; ", j) {
      assert p[j..j + 2][0] == p[j];
    }
  }

  /** Rows without `"; "`, joined into a cookie text, split back into the same rows. */
  lemma CookieRows(rows: seq<string>)
    requires |rows| >= 1
    requires forall j :: 0 <= j < |rows| ==> Free(rows[j], "; ")
    ensures Split(Join(rows, "; "), "; ") == rows
  {
    forall j | 0 <= j < |rows| ensures Separates(rows[j], "; ") {
      RowSeparates(rows[j]);
    }
    SplitJoin(rows, "; ");
  }

  /** A row `name<x>=<k>`, with no `=` in `x` or `k`, splits on `=` into the name and `k`. */
  lemma RowValue(x: string, k: string)
    requires '=' !in x && '=' !in k
    ensures Split(KeyCookieName + x + "=" + k, "=") == [KeyCookieName + x, k]
  {
    assert '=' !in KeyCookieName;
    SplitPair(KeyCookieName + x, k, '=');
  }

  /** The cookie is found in any list of rows: when the first row that starts with the
      cookie's name is `name<x>=<k>`, with no `=` in `x` or `k` and no row holding the
      separator `"; "`, the lookup gives `k`. With `x` empty this is the row
      `saveKeyCookie` sets; with `x` not empty it shows that matching is by prefix
      only, so a longer name that starts with the cookie's is taken for it. */
  lemma {:induction false} KeyFound(rows: seq<string>, i: nat, x: string, k: string)
    requires i < |rows| && rows[i] == KeyCookieName + x + "=" + k
    requires '=' !in x && '=' !in k
    requires forall j :: 0 <= j < |rows| ==> Free(rows[j], "; ")
    requires forall j :: 0 <= j < i ==> !StartsWith(rows[j], KeyCookieName)
    ensures LoadKeyCookie(Join(rows, "; ")) == Value(k)
  {
    var cookie := Join(rows, "; ");
    CookieRows(rows);
    JoinHolds(rows, i, "; ");
    assert StartsWith(rows[i], KeyCookieName) by {
      assert rows[i][..|KeyCookieName|] == KeyCookieName;
    }
    FindRowFirst(rows, KeyCookieName, i);
    RowValue(x, k);
    LoadFound(cookie, rows, i, k);
  }

  /** `find` stops at the first row that starts with the prefix. */
  lemma FindRowFirst(rows: seq<string>, prefix: string, i: nat)
    requires i < |rows| && StartsWith(rows[i], prefix)
    requires forall j :: 0 <= j < i ==> !StartsWith(rows[j], prefix)
    ensures FindRow(rows, prefix) == Some(i)
  {
    var r := FindRow(rows, prefix);
    assert r.Some?;
    assert !(r.value < i);
    assert !(r.value > i);
  }

  /** The lookup, once the row is found and split. */
  lemma LoadFound(cookie: string, rows: seq<string>, i: nat, k: string)
    requires cookie != "" && Split(cookie, "; ") == rows
    requires FindRow(rows, KeyCookieName) == Some(i)
    requires i < |rows| && |Split(rows[i], "=")| >= 2 && Split(rows[i], "=")[1] == k
    ensures LoadKeyCookie(cookie) == Value(k)
  {
  }

  /** The join of a list is at least as long as each of its pieces. */
  lemma {:induction false} JoinHolds(parts: seq<string>, i: nat, d: string)
    requires i < |parts|
    ensures |Join(parts, d)| >= |parts[i]|
    decreases |parts|
  {
    if |parts| > 1 && i > 0 {
      JoinHolds(parts[1..], i - 1, d);
    }
  }

  /** No row without the cookie's name before it: a cookie text of just the row
      `saveKeyCookie(k)` sets gives `k` back. */
  lemma KeyRowLoads(k: string)
    requires '=' !in k && Free(k, "; ")
    ensures LoadKeyCookie(KeyRow(k)) == Value(k)
  {
    NameValueRow(k);
    assert KeyRow(k) == KeyCookieName + "" + "=" + k;
    KeyFound([KeyRow(k)], 0, "", k);
  }

  /** The rows of the text `saveKeyCookie(k)` assigns: its name-and-value row first,
      then the four attributes. */
  lemma SavedRows(k: string)
    requires Free(k, "; ")
    ensures Split(SaveKeyCookie(k), "; ") == [KeyRow(k)] + SaveAttributes()
  {
    var rows := [KeyRow(k)] + SaveAttributes();
    JoinFive(rows, "; ");
    NameValueRow(k);
    forall j | 0 <= j < |rows| ensures Free(rows[j], "; ") {
      if j > 0 {
        AttributeFree(rows[j]);
      }
    }
    CookieRows(rows);
  }

  /** Saving then reading: the row `saveKeyCookie(k)` sets reads back as `k`. */
  lemma SavedKeyLoads(k: string)
    requires '=' !in k && Free(k, "; ")
    ensures LoadKeyCookie(Split(SaveKeyCookie(k), "; ")[0]) == Value(k)
  {
    SavedRows(k);
    KeyRowLoads(k);
  }

  /** Matching is by prefix: a row whose name only starts with the cookie's name,
      such as `link-shortener-keyX=v`, is taken for the cookie. */
  lemma LongerNameMatches(x: string, v: string)
    requires ';' !in x && '=' !in x && '=' !in v && Free(v, "; ")
    ensures LoadKeyCookie(KeyCookieName + x + "=" + v) == Value(v)
  {
    var row := KeyCookieName + x + "=" + v;
    assert row == (KeyCookieName + x + "=") + v;
    FreeAfterNoSemicolon(KeyCookieName + x + "=", v);
    KeyFound([row], 0, x, v);
  }

  /** For any cookie text whose first row starting with the cookie's name is row `i`:
      the lookup is `undefined` exactly when that row holds no `=`, and never `null`. */
  lemma FoundRowLookup(cookie: string, i: nat)
    requires cookie != "" && FindRow(Split(cookie, "; "), KeyCookieName) == Some(i)
    ensures LoadKeyCookie(cookie) != Missing
    ensures LoadKeyCookie(cookie) == NoValue <==> '=' !in Split(cookie, "; ")[i]
  {
    var r := Split(cookie, "; ")[i];
    assert "=" == ['='];
    FreeOfChar(r, '=');
    SplitSingle(r, "=");
    match IndexOf(r, "=")
    case None =>
    case Some(j) =>
      SplitFirst(r, "=", j);
  }

  /** For any cookie text whose first row starting with the cookie's name is row `i`,
      with its first `=` at `j` and its next `=` at `e` (or `e` its end): the value is
      the text between the two, so a key holding `=` reads back cut at its first `=`. */
  lemma FoundRowValue(cookie: string, i: nat, j: nat, e: nat)
    requires cookie != "" && FindRow(Split(cookie, "; "), KeyCookieName) == Some(i)
    requires var r := Split(cookie, "; ")[i];
             && j < e <= |r| && r[j] == '='
             && (forall k :: 0 <= k < j ==> r[k] != '=')
             && (forall k :: j < k < e ==> r[k] != '=')
             && (e == |r| || r[e] == '=')
    ensures LoadKeyCookie(cookie) == Value(Split(cookie, "; ")[i][j + 1..e])
  {
    var r := Split(cookie, "; ")[i];
    assert "=" == ['='];
    SplitSecondPiece(r, '=', j, e);
  }

  /** A saved key that holds `=` reads back as the text before its first `=`. */
  lemma KeyWithEqualsCut(a: string, b: string)
    requires '=' !in a && Free(a + "=" + b, "; ")
    ensures LoadKeyCookie(KeyRow(a + "=" + b)) == Value(a)
  {
    var k := a + "=" + b;
    var row := KeyRow(k);
    NameValueRow(k);
    SplitSingle(row, "; ");
    FindRowFirst([row], KeyCookieName, 0);
    var n := |KeyCookieName|;
    CutAtEquals(row, k, a, b, n);
    FoundRowValue(row, 0, n, n + 1 + |a|);
  }

  lemma CutAtEquals(row: string, k: string, a: string, b: string, n: nat)
    requires n == |KeyCookieName| && k == a + "=" + b && '=' !in a
    requires |row| > n && row[..n] == KeyCookieName && row[n] == '=' && row[n + 1..] == k
    ensures n + 1 + |a| < |row| && row[n + 1 + |a|] == '='
    ensures forall x :: 0 <= x < n ==> row[x] != '='
    ensures forall x :: n < x < n + 1 + |a| ==> row[x] != '='
    ensures row[n + 1..n + 1 + |a|] == a
  {
    assert '=' !in KeyCookieName;
    forall x | 0 <= x < n ensures row[x] != '=' {
      assert row[x] == row[..n][x];
    }
    forall x | n < x < n + 1 + |a| ensures row[x] != '=' {
      assert row[x] == k[x - n - 1] == a[x - n - 1];
    }
    assert row[n + 1 + |a|] == k[|a|];
    assert row[n + 1..n + 1 + |a|] == k[..|a|];
  }

  /** A row that starts with the cookie's name but holds no `=` gives no value
      (`undefined`), not `null`. */
  lemma NameWithoutValue(x: string)
    requires ';' !in x && '=' !in x
    ensures LoadKeyCookie(KeyCookieName + x) == NoValue
  {
    var row := KeyCookieName + x;
    assert '=' !in KeyCookieName && ';' !in KeyCookieName;
    assert '=' !in row && ';' !in row;
    NoSemicolonFree(row);
    SplitSingle(row, "; ");
    assert "=" == ['='];
    FreeOfChar(row, '=');
    SplitSingle(row, "=");
    assert StartsWith(row, KeyCookieName) by {
      assert row[..|KeyCookieName|] == KeyCookieName;
    }
    FindRowFirst([row], KeyCookieName, 0);
  }

  /** Deleting: the row `deleteKeyCookie()` sets reads back as the empty value, and
      the rest of its text is the root path and the expiry at the epoch. */
  lemma DeletedKeyLoadsEmpty()
    ensures Split(DeleteKeyCookie(), "; ") == [KeyRow(""), "path=/", ExpiredAttribute]
    ensures LoadKeyCookie(Split(DeleteKeyCookie(), "; ")[0]) == Value("")
  {
    var rows := [KeyRow(""), "path=/", ExpiredAttribute];
    NoSemicolonFree(KeyRow(""));
    NoSemicolonFree("path=/");
    NoSemicolonFree(ExpiredAttribute);
    CookieRows(rows);
    NoSemicolonFree("");
    KeyRowLoads("");
  }

  lemma NameValueRow(k: string)
    requires Free(k, "; ")
    ensures Free(KeyRow(k), "; ")
  {
    FreeAfterNoSemicolon(KeyCookieName + "=", k);
  }

  /** `"; "` does not occur in `a + b` when `a` has no `;` and `b` no `"; "`. */
  lemma FreeAfterNoSemicolon(a: string, b: string)
    requires ';' !in a && Free(b, "; ")
    ensures Free(a + b, "; ")
  {
    var row := a + b;
    var n := |a|;
    OccursInSuffix(row, "; ", n);
    assert row[n..] == b;
    forall j | 0 <= j ensures !OccursAt(row, "; ", j) {
      if j >= n {
        assert !OccursAt(b, "; ", j - n);
      } else if j + 2 <= |row| {
        assert row[j] == a[j];
      }
    }
  }

  lemma AttributeFree(a: string)
    requires a in SaveAttributes()
    ensures Free(a, "; ")
  {
    OneYearDecimal();
    assert ';' !in a;
    NoSemicolonFree(a);
  }
}
