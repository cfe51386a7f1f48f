# link-shortener-ui, client core, in Dafny

This project models the client-side logic of the link-shortener web UI and proves
properties of that model. The logic covered is:

- **capitalizeFirstLetter** (`strings.dfy`): the message formatter, in plain mode and
  in error mode. Error mode upper-cases the first letter after the first `": "`.
- **FormatError** (`format_error.dfy`): turns error tokens such as `invalid_url` into
  labels such as `Invalid URL`.
- **validateKey** (`validate_key.dfy`): the passkey check. It trims the key, rejects an
  empty key, and rejects a key the injection denylist `/(['";\\]+|--|\.\.)/` matches.
  It then sends the key as the `Authorization` header. Finally it maps the backend's
  answer, or the exception raised on the way, to a `ValidationResult`.
- **The two key-state records**:
  - `key_state.dfy` is the session record, with its validity check, update and reset.
  - `state.dfy` is the application shell's copy, which has only a reset.
- **The toast** (`toast.dfy`): its visible state and `showToast`, which replaces any
  pending dismissal with a new one.
- **The settings and the key cookie** (`settings.dfy`):
  - the stored settings with their default;
  - the cookie text that saving and deleting the key assign;
  - the lookup that reads the key back from the cookie text.
- **Shared pieces**: `key.dfy` holds the key record, and `text.dfy` the JavaScript
  string built-ins the code relies on. Those built-ins are `split`, `join`, `indexOf`,
  `includes`, `startsWith`, `replace` of one character, `trim` and ASCII case
  mapping. `wrappers.dfy` holds `Option` and `Result`.

The shape of the model follows the shape of the code:

- Pure functions become Dafny functions with lemmas about them.
- The Svelte `$state` records become classes whose methods update their fields.
- The timer of the toast becomes explicit state: a pending handle with a deadline on
  a logical clock.
  - `ShowToast` cancels the old handle and schedules a new one.
  - The host runs a handle with `Fire`, or with `Tick` once the clock reaches the
    deadline.
- Inputs from outside are parameters:
  - the outcome of the network request;
  - the text `document.cookie` reads as;
  - the storage map;
  - the JSON conversion functions;
  - the current time.

## Code and tests

The model follows the code where the code and its tests disagree.

### `capitalizeFirstLetter(s, true)` throws when `s` has no `": "`

The code reads `charAt` of the missing second piece (`src/util/strings.ts:6`), which
throws a TypeError.

- `src/util/strings.spec.ts:27-29` expects the text back unchanged.
- `Strings.CapitalizeFirstLetter` returns `Failure(MissingPieceError)`.
- `Strings.ExampleNoDelimiterThrows` shows this for the test's own input.

### Error mode drops everything from a second `": "` on

- `src/util/strings.spec.ts:31-35` expects `error: Something: went wrong`.
- The code keeps only the first two pieces. `Strings.ThirdPieceDropped` proves that
  `a: b: c` gives `a: B` when `a` and `b` have no colon, so the test's input comes back
  as `error: Something`.

### `validateKey` rejects where the tests expect a failure result

The enclosing `catch` meets the same TypeError again: the TypeError's own message has
no `": "` (`Strings.MissingPieceError`, `ValidateKey.MissingPieceHasNoDelimiter`). So
the returned promise rejects whenever:

- a failed response carries a message without `": "`, or
- an exception message has no `": "`.

`src/lib/ValidateKey.spec.ts:57-71` and `:73-81` expect the message as the error.
`ValidateKey.ExampleCustomMessage` and `ValidateKey.ExampleNetworkError` state the
rejection for the tests' inputs.

## Model

| member | source | states |
|---|---|---|
| Strings.CapitalizeFirstLetter | src/util/strings.ts:1-7 | An absent or empty text gives `""`. Plain mode keeps the length, upper-cases the first character and keeps the rest. In error mode, a non-empty text fails exactly when it holds no `": "`, and the failure is the TypeError message. |
| Strings.ErrorModeShape | src/util/strings.ts:5-6 | With the first `": "` at `i`, error mode keeps `s[..i]` and the delimiter. It upper-cases the first letter of the piece that runs up to the next `": "` (or the end) and drops all that follows. |
| Strings.ErrorModeLast | src/util/strings.ts:5-6 | With no second `": "`, error mode upper-cases the first letter of everything after the first one. |
| Strings.SingleDelimiter | src/util/strings.ts:5-6 | With exactly one `": "`, the result has the input's length and differs from it at most in the character right after the delimiter, which is upper-cased. |
| Strings.PrefixKept | src/util/strings.ts:5-6 | Whatever follows the first `": "`, the text before it and the delimiter come back unchanged. |
| Strings.OnlyDelimiter | src/util/strings.ts:5-6 | `a: b`, with no colon in `a` or `b`, gives `a: ` followed by `b` with its first letter upper-cased. |
| Strings.ThirdPieceDropped | src/util/strings.ts:5-6 | `a: b: c`, with no colon in `a` or `b`, gives `a: B`: the third piece is lost. |
| Strings.ErrorModeBetween | src/util/strings.ts:5-6 | When a second `": "` follows the first, only the piece between them is kept, its first letter upper-cased. |
| Strings.PlainIdempotent | src/util/strings.ts:3 | Plain mode applied to its own result changes nothing. |
| Strings.ExampleNoDelimiterThrows | src/util/strings.ts:6 | `something went wrong` in error mode throws the TypeError. |
| Text.UpperFirst | src/util/strings.ts:3 | `charAt(0).toUpperCase() + slice(1)`: same length, first character upper-cased, rest kept; the empty text stays empty. |
| Text.Upper | src/lib/FormatError.ts:23 | Every character upper-cased, length kept. |
| Text.Lower | src/lib/FormatError.ts:22 | Every character lower-cased, length kept. |
| Text.IndexOf | src/lib/FormatError.ts:14 | The result is an occurrence of the separator with none before it; no result means the separator occurs nowhere. |
| Text.Split | src/util/strings.ts:5 | At least one piece, and no piece holds the separator. |
| Text.SplitSingle | src/util/strings.ts:5-6 | A text splits into itself alone exactly when the separator does not occur in it. |
| Text.JoinSplit | src/lib/FormatError.ts:6-9 | Joining the pieces of a split with the separator restores the text. |
| Text.SplitJoin | src/lib/Settings.ts:18-24 | Splitting a join gives the list back when no piece runs into the separator. |
| Text.Join | src/lib/FormatError.ts:27 | `join`: its partner lemmas `Text.JoinSplit` and `Text.SplitJoin` tie it to `split` both ways. |
| Text.Contains | src/lib/FormatError.ts:14 | `includes` holds exactly when the text occurs somewhere. |
| Text.StartsWith | src/lib/Settings.ts:36 | `startsWith` holds exactly when the prefix is no longer than the text and agrees with it character for character. |
| Text.IsWhiteSpace | src/lib/ValidateKey.ts:12 | The characters `trim` removes: the ECMAScript white-space and line-terminator code points. |
| Text.SplitSecondPiece | src/lib/Settings.ts:38 | Split on one character, the second piece is the text between its first and second occurrence, or from the first to the end. |
| Text.ReplaceAll | src/lib/FormatError.ts:16 | Each `_` becomes a space, every other character is kept, length kept. |
| Text.Trim | src/lib/ValidateKey.ts:12 | The result is the input without its leading and trailing white space. It is empty exactly when the input is all white space, and otherwise starts and ends with a non-white-space character. |
| FormatError.FormatError | src/lib/FormatError.ts:1-4 | Throws exactly on the empty text, with `Input must be a non-empty string`. |
| FormatError.LeadingSpaceDropped | src/lib/FormatError.ts:6-10 | A text starting with a space comes back without that first character. |
| FormatError.RestKept | src/lib/FormatError.ts:6-33 | Otherwise: the formatted first word keeps its length, everything after the first word is kept character for character, and the result has the input's length. |
| FormatError.FormatFirst | src/lib/FormatError.ts:12-31 | The formatted first word has the length of the input word. |
| FormatError.NoUnderscore | src/lib/FormatError.ts:28-31 | A first word without `_` only has its first character upper-cased. |
| FormatError.UnderscoresBecomeSpaces | src/lib/FormatError.ts:14-27 | In a first word with `_`, a character of the result is a space exactly where the input had `_`, and no `_` is left. |
| FormatError.Segments | src/lib/FormatError.ts:14-27 | The space-separated words of the formatted first word are the formatted `_`-separated segments of the input, one for one. |
| FormatError.FormatSegment | src/lib/FormatError.ts:21-26 | A segment mentioning `url` in any case is upper-cased whole; any other has only its first character upper-cased. |
| FormatError.FormatSegments | src/lib/FormatError.ts:19-26 | The segments are formatted one by one, in order. |
| FormatError.SingleWord | src/lib/FormatError.ts:6-33 | A non-empty text without a space is formatted as one first word with nothing after it. |
| FormatError.TwoSegments | src/lib/FormatError.ts:14-27 | `a_b` is formatted as the two formatted segments joined by one space. |
| FormatError.ExampleInvalidUrl | src/lib/FormatError.ts:14-27 | `invalid_url` becomes `Invalid URL`. |
| ValidateKey.Denylisted | src/lib/ValidateKey.ts:23-24 | The left-to-right scan of the pattern holds exactly when, at some position, there is a quote, a double quote, a semicolon or a backslash, or `--` or `..` starts there. |
| ValidateKey.ValidateKey | src/lib/ValidateKey.ts:11-72 | A blank key gives `Passkey is required` and a denylisted key `Invalid characters detected`, neither with a request. A request is sent exactly when both checks pass, and it carries the trimmed key. The result is a success exactly when, in addition, the response is ok and holds a key with a non-empty key string; the data is then the body. Every failure has a non-empty error. |
| ValidateKey.Settle | src/lib/ValidateKey.ts:31-70 | The answer is mapped as follows: a success exactly for an ok response with a non-empty key; `Invalid passkey` for a failed response with no or an empty message; `Validation failed` for an ok response without a usable key; a non-empty error otherwise. |
| ValidateKey.Catch | src/lib/ValidateKey.ts:64-70 | An empty message gives the retry hint. The result rejects exactly when the message is non-empty and has no `": "`. Any other result is a failure with a non-empty error. |
| ValidateKey.NonEmptyErrorMode | src/lib/ValidateKey.ts:41-45 | Error mode never turns a non-empty message into `""`. |
| ValidateKey.RejectedResponseMessage | src/lib/ValidateKey.ts:41-51 | A failed response with a message gives its error-mode capitalisation, or a rejection when the message has no `": "`. |
| ValidateKey.ThrownMessage | src/lib/ValidateKey.ts:64-70 | An exception gives the retry hint for an empty message, the capitalised message when it has `": "`, and a rejection otherwise. |
| ValidateKey.MissingPieceHasNoDelimiter | src/util/strings.ts:6 | The TypeError's message has no `": "`, so formatting it in error mode throws again. |
| ValidateKey.ExampleBlank | src/lib/ValidateKey.ts:12-20 | Two spaces give `Passkey is required` and no request. |
| ValidateKey.ExampleInjection | src/lib/ValidateKey.ts:22-29 | `'; DROP TABLE users; --` gives `Invalid characters detected` and no request. |
| ValidateKey.ExampleNetworkError | src/lib/ValidateKey.ts:64-70 | A `Network error` exception makes the promise reject. |
| ValidateKey.ExampleCustomMessage | src/lib/ValidateKey.ts:41-51 | A failed response with message `Invalid key format` makes the promise reject. |
| Key.EmptyKey | src/lib/KeyState.svelte.ts:3-10 | The initial record has empty strings, both flags off, and is not usable. |
| Key.Usable | src/lib/KeyState.svelte.ts:13-18 | The validity condition: active, with non-empty key, name and creation time. |
| Key.UsableIgnoresAdminAndUpdate | src/lib/KeyState.svelte.ts:12-19 | The admin flag and the update time play no part in validity. |
| KeyState.GlobalKeyState.constructor | src/lib/KeyState.svelte.ts:3-10 | The state starts as the empty record and is not valid. |
| KeyState.GlobalKeyState.IsValid | src/lib/KeyState.svelte.ts:12-19 | Valid exactly when the record is active with non-empty key, name and creation time. |
| KeyState.GlobalKeyState.Update | src/lib/KeyState.svelte.ts:21-28 | The record becomes the given key, field for field, and its validity is that key's. |
| KeyState.GlobalKeyState.Reset | src/lib/KeyState.svelte.ts:30-38 | From any state, the record becomes the empty one and is not valid. |
| KeyState.ResetTwice | src/lib/KeyState.svelte.ts:30-38 | Reset is idempotent: on a state that was just reset, a reset changes nothing. |
| KeyState.UpdateThenReset | src/lib/KeyState.svelte.ts:21-38 | A reset after an update leaves nothing of the update. |
| State.GlobalKeyState.constructor | src/state.svelte.ts:3-10 | The shell's copy starts as the empty record. |
| State.GlobalKeyState.Reset | src/state.svelte.ts:12-20 | From any state, the shell's copy becomes the empty record. |
| State.ResetTwice | src/state.svelte.ts:12-20 | Reset is idempotent: on a state that was just reset, a reset changes nothing. |
| State.ResetLeavesOther | src/state.svelte.ts:3-20 | Resetting the shell's copy leaves the session record and its validity as they were. |
| Toast.AsOptions | src/lib/Toast.svelte.ts:18 | A bare text is read as options with only that text; options are taken as given. |
| Toast.ContentOf | src/lib/Toast.svelte.ts:18-22 | Each present option is used; an absent text becomes `""`, an absent duration 5000 and an absent type `success`. |
| Toast.TextIsTextOption | src/lib/Toast.svelte.ts:18-22 | A bare text shows like the options object holding only it: that text, 5000 ms, `success`. |
| Toast.ToInt32 | src/lib/Toast.svelte.ts:26-29 | The wrap of a whole number into the signed 32-bit range: in range, congruent modulo 2^32, and the identity on that range. |
| Toast.Delay | src/lib/Toast.svelte.ts:26-29 | The delay used is below 2^31, equals a duration already in range, and is 0 for a negative duration within the signed 32-bit range (below that range the value wraps). |
| Toast.DefaultDelay | src/lib/Toast.svelte.ts:21-29 | The default duration gives a 5000 ms delay. |
| Toast.WrappedDelay | src/lib/Toast.svelte.ts:26-29 | A duration of 2^31 wraps to a negative value and dismisses at once; 2^32 + 1000 waits 1000 ms. |
| Toast.ToastState.constructor | src/lib/Toast.svelte.ts:7-14 | The toast starts hidden, with empty text, 5000 ms, `success`, and no pending dismissal. |
| Toast.ToastState.ShowToast | src/lib/Toast.svelte.ts:16-30 | The toast is shown with the request's content. The previous dismissal is cancelled, one new dismissal is pending (a fresh handle, due at now plus the delay of the stored duration), and the invariant is kept. |
| Toast.ToastState.Fire | src/lib/Toast.svelte.ts:26-29 | Running the pending timer hides the toast and clears the timer. A cancelled handle does nothing. The content never changes. |
| Toast.ToastState.Tick | src/lib/Toast.svelte.ts:26-29 | Once the clock reaches the pending deadline the toast is hidden; before that nothing changes. |
| Toast.ShowOverShow | src/lib/Toast.svelte.ts:25-29 | Showing a second toast before the first is dismissed: the first dismissal no longer hides it, and the pending one is timed from the second call. |
| Toast.ShowThenExpire | src/lib/Toast.svelte.ts:16-30 | At the deadline the toast is hidden with its content kept. |
| Settings.DefaultSettings | src/lib/Settings.ts:13 | The default does not save the key. |
| Settings.SaveSettings | src/lib/Settings.ts:7-9 | The settings key holds the rendered settings; every other entry is kept and no other is added. |
| Settings.LoadSettings | src/lib/Settings.ts:11-14 | A missing or empty entry gives the default; otherwise the parsed entry. |
| Settings.SettingsRoundTrip | src/lib/Settings.ts:7-14 | Saved settings load back when parsing undoes rendering and the rendering is never empty. |
| Settings.OneYearDecimal | src/lib/Settings.ts:21 | The maximum age is written `31536000`. |
| Settings.KeyRow | src/lib/Settings.ts:19 | The row is the cookie's name, `=`, and the key as given. |
| Settings.SaveKeyCookie | src/lib/Settings.ts:17-27 | The text assigned is the row, `path=/`, `max-age=<one year>`, `SameSite=None` and `Secure`, joined by `"; "`. |
| Settings.DeleteKeyCookie | src/lib/Settings.ts:30-32 | The text assigned is the row with an empty value, `path=/` and the epoch expiry, joined by `"; "`. |
| Settings.FindRow | src/lib/Settings.ts:36 | The first row starting with the name, or none when no row does. |
| Settings.LoadKeyCookie | src/lib/Settings.ts:34-41 | An empty cookie text, or one with no row starting with the name, gives `null`. A value never holds `=`. |
| Settings.FoundRowLookup | src/lib/Settings.ts:36-38 | When some row starts with the name, the result is never `null`, and it is `undefined` exactly when the first such row holds no `=`. |
| Settings.FoundRowValue | src/lib/Settings.ts:36-38 | Otherwise the value is the text of that row between its first `=` and its next `=`, or the row's end. |
| Settings.KeyWithEqualsCut | src/lib/Settings.ts:17-41 | A saved key that holds `=` reads back cut at its first `=`: `a=b` reads back as `a`. |
| Settings.CookieRows | src/lib/Settings.ts:36 | Rows without `"; "`, once joined, split back into the same rows. |
| Settings.RowValue | src/lib/Settings.ts:38 | A row `name<x>=<k>` splits on `=` into the name part and `k`. |
| Settings.KeyFound | src/lib/Settings.ts:34-41 | In any cookie text, when the first row starting with the name is `name<x>=<k>`, the lookup gives `k`. |
| Settings.KeyRowLoads | src/lib/Settings.ts:17-41 | The row `saveKeyCookie(k)` sets reads back as `k`. |
| Settings.SavedRows | src/lib/Settings.ts:17-36 | The text `saveKeyCookie(k)` assigns splits into its row and its four attributes. |
| Settings.SavedKeyLoads | src/lib/Settings.ts:17-41 | Saving `k` and reading the row back gives `k`. |
| Settings.LongerNameMatches | src/lib/Settings.ts:36 | Lookup is by prefix: `link-shortener-key<x>=v` is taken for the cookie. |
| Settings.NameWithoutValue | src/lib/Settings.ts:38 | A matching row without `=` gives `undefined`, not `null`. |
| Settings.DeletedKeyLoadsEmpty | src/lib/Settings.ts:30-41 | The deleting text splits into its three parts, and its row reads back as the empty value. |

## Left out

- The request of `validateKey` (`fetch`, `PUBLIC_API_URL`, `response.json()`): its outcome is the parameter `network`. The model keeps only the `Authorization` header of the request, not its URL or method.
- A JSON body that is `null` or not an object: the body is always a `ValidateKeyResponse`. For an ok `null` body the code would throw on `responseData.key`.
- `FormatError` given something other than a string: the argument is always a string.
- `capitalizeFirstLetter` given a falsy value other than `undefined` and `""`, or a non-boolean `isError`: not modelled.
- `MissingPieceError` is the wording of V8. Other engines word the TypeError differently, and the double rejection above depends on that message having no `": "`.
- `JSON.stringify`/`JSON.parse` and `localStorage`: the conversion functions are parameters and the storage is a map passed in and returned.
- `document.cookie`: assigning it hands the text to the browser's cookie jar, which stores one cookie from it. The model gives the text assigned, and the lookup takes the text reading returns. The jar's merging, expiry and attribute handling are left out. So is the ReferenceError when `document` does not exist.
- Timers: `setTimeout` and `clearTimeout` become explicit handles and deadlines on a logical clock passed in as `now`. The host's event loop is not modelled.
- Toast.Delay: durations that are not whole numbers (fractions, `NaN`, infinities) are left out; only the wrap of whole numbers to 32 bits and the clamp at 0 are modelled.
- `console.log` in `showToast`: output only.
- Svelte reactivity: components re-rendering on a change to `$state` is not modelled.
- Concurrency: other code running between the `await`s of `validateKey` is not modelled.
- Text.Upper, Text.Lower, Text.UpperFirst: ASCII case mapping only. JavaScript's full Unicode mapping (for example `ß` to `SS`, which also changes the length) is left out.
- Text.UpperFirst: `charAt` and `slice` count UTF-16 code units, while characters here are whole code points, so surrogate pairs are not modelled.
- `src/util/dates.ts`, `src/lib/Links.ts`, `src/types/link.ts`, `tailwind.config.ts` and the end-to-end test are not part of this model.
