/** `validateKey`: checks a passkey locally, sends it to the backend, and maps the
    backend's answer (or the failure to get one) to a `ValidationResult`. The
    request itself is not modelled: its outcome is a parameter. */
module ValidateKey {
  import opened Wrappers
  import opened Text
  import opened Strings
  import opened Key

  const PasskeyRequired := "Passkey is required"
  const InvalidCharacters := "Invalid characters detected"
  const InvalidPasskey := "Invalid passkey"
  const ValidationFailed := "Validation failed"
  const TryAgain := "Failed to validate passkey. Please try again."

  /** `ValidationResult`: `{success: true, data}` or `{success: false, error}`. */
  datatype ValidationResult = Passed(data: ValidateKeyResponse) | Failed(error: string)

  /** A response of the backend: its `ok` flag and its parsed JSON body. */
  datatype Response = Response(ok: bool, body: ValidateKeyResponse)

  /** What `fetch` followed by `response.json()` gives: a response, or an exception
      with its message (a transport failure or a body that is not JSON). */
  datatype Outcome = Responded(response: Response) | Threw(message: string)

  /** How the returned promise settles: with a result, or rejected with the message
      of an exception the `catch` block itself throws. */
  datatype Settled = Resolved(result: ValidationResult) | Rejected(reason: string)

  /** One call: the `Authorization` header of the request it sends, if it sends one,
      and how it settles. */
  datatype Attempt = Attempt(authorization: Option<string>, settled: Settled)

  // ---------------------------------------------------------------------------
  // The denylist /(['";\\]+|--|\.\.)/

  /** The characters the pattern's bracket class matches. */
  predicate UnsafeChar(c: char) {
    c == '\'' || c == '"' || c == ';' || c == '\\'
  }

  /** A match of the pattern at position `i`: one of its three alternatives starts
      there. The `+` after the bracket class does not change where a match starts. */
  ghost predicate UnsafeAt(s: string, i: int) {
    0 <= i < |s| && (UnsafeChar(s[i]) || OccursAt(s, "--", i) || OccursAt(s, "..", i))
  }

  /** `sqlInjectionPattern.test(s)`: the alternatives tried at each position from the
      left. It holds exactly when the pattern matches somewhere. */
  predicate Denylisted(s: string): (b: bool)
    ensures b <==> exists i :: UnsafeAt(s, i)
    decreases |s|
  {
    if s == "" then false
    else
      var rest := Denylisted(s[1..]);
      UnsafeHead(s);
      UnsafeShift(s);
      UnsafeChar(s[0]) || StartsWith(s, "--") || StartsWith(s, "..") || rest
  }

  /** A match at the first position is one of the alternatives at the start. */
  lemma UnsafeHead(s: string)
    requires s != ""
    ensures UnsafeAt(s, 0) <==> UnsafeChar(s[0]) || StartsWith(s, "--") || StartsWith(s, "..")
  {
    if |s| >= 2 {
      assert s[0..2] == s[..2];
    }
  }

  /** A match is at the first position or is a match in the rest, shifted by one. */
  lemma UnsafeShift(s: string)
    requires s != ""
    ensures (exists i :: UnsafeAt(s, i)) <==> UnsafeAt(s, 0) || exists i :: UnsafeAt(s[1..], i)
  {
    ShiftOccurs(s, "--");
    ShiftOccurs(s, "..");
    if exists i :: UnsafeAt(s, i) {
      var i :| UnsafeAt(s, i);
      if i > 0 {
        assert UnsafeAt(s[1..], i - 1);
      }
    }
    if exists i :: UnsafeAt(s[1..], i) {
      var i :| UnsafeAt(s[1..], i);
      assert UnsafeAt(s, i + 1);
    }
  }

  // ---------------------------------------------------------------------------
  // validateKey

  /** `validateKey(inputKey)` with `network` the outcome of the request it would send. */
  function ValidateKey(inputKey: string, network: Outcome): (r: Attempt)
    ensures Trim(inputKey) == "" ==> r == Attempt(None, Resolved(Failed(PasskeyRequired)))
    ensures Trim(inputKey) != "" && Denylisted(Trim(inputKey))
            ==> r == Attempt(None, Resolved(Failed(InvalidCharacters)))
    ensures r.authorization.Some? <==> Trim(inputKey) != "" && !Denylisted(Trim(inputKey))
    ensures r.authorization.Some? ==> r.authorization.value == Trim(inputKey) && r.settled == Settle(network)
    ensures r.settled.Resolved? && r.settled.result.Passed?
            <==> Trim(inputKey) != "" && !Denylisted(Trim(inputKey))
                 && network.Responded? && network.response.ok
                 && network.response.body.key.Some? && network.response.body.key.value.key != ""
    ensures r.settled.Resolved? && r.settled.result.Passed? ==> r.settled.result.data == network.response.body
    ensures r.settled.Resolved? && r.settled.result.Failed? ==> r.settled.result.error != ""
  {
    var cleanedKey := Trim(inputKey);
    if cleanedKey == "" then Attempt(None, Resolved(Failed(PasskeyRequired)))
    else if Denylisted(cleanedKey) then Attempt(None, Resolved(Failed(InvalidCharacters)))
    else Attempt(Some(cleanedKey), Settle(network))
  }

  /** The `try` block after the request, with its `catch`. */
  function Settle(network: Outcome): (s: Settled)
    ensures s.Resolved? && s.result.Passed? <==>
              network.Responded? && network.response.ok
              && network.response.body.key.Some? && network.response.body.key.value.key != ""
    ensures s.Resolved? && s.result.Passed? ==> s.result.data == network.response.body
    ensures s.Resolved? && s.result.Failed? ==> s.result.error != ""
    ensures network.Responded? && !network.response.ok
            && (network.response.body.message.None? || network.response.body.message.value == "")
            ==> s == Resolved(Failed(InvalidPasskey))
    ensures network.Responded? && network.response.ok
            && (network.response.body.key.None? || network.response.body.key.value.key == "")
            ==> s == Resolved(Failed(ValidationFailed))
  {
    match network
    case Threw(message) => Catch(message)
    case Responded(response) =>
      var body := response.body;
      if !response.ok then
        if body.message.Some? && |body.message.value| > 0 then
          match CapitalizeFirstLetter(body.message, true)
          case Success(error) =>
            assert error[..] != "" by { NonEmptyErrorMode(body.message.value); }
            Resolved(Failed(error))
          case Failure(thrown) => Catch(thrown)
        else Resolved(Failed(InvalidPasskey))
      else if body.key.None? || body.key.value.key == "" then Resolved(Failed(ValidationFailed))
      else Resolved(Passed(body))
  }

  /** The `catch (err)` block, given `err.message`. */
  function Catch(message: string): (s: Settled)
    ensures s.Resolved? ==> s.result.Failed? && s.result.error != ""
    ensures s.Rejected? <==> message != "" && Free(message, ErrorDelimiter)
    ensures message == "" ==> s == Resolved(Failed(TryAgain))
  {
    match CapitalizeFirstLetter(Some(message), true)
    case Success(error) => Resolved(Failed(if error == "" then TryAgain else error))
    case Failure(thrown) => Rejected(thrown)
  }

  /** Error mode never turns a non-empty text into the empty one. */
  lemma NonEmptyErrorMode(m: string)
    requires m != "" && CapitalizeFirstLetter(Some(m), true).Success?
    ensures CapitalizeFirstLetter(Some(m), true).value != ""
  {
    var i := IndexOf(m, ErrorDelimiter);
    if i.None? {
      SplitSingle(m, ErrorDelimiter);
    } else {
      PrefixKept(m, i.value);
    }
  }

  // ---------------------------------------------------------------------------
  // The error paths

  /** A failed response with a non-empty message: its error-mode capitalisation, or,
      when the message has no `": "`, a rejection, because the `catch` block meets the
      same TypeError again. */
  lemma RejectedResponseMessage(body: ValidateKeyResponse)
    requires body.message.Some? && body.message.value != ""
    ensures var s := Settle(Responded(Response(false, body)));
            if Free(body.message.value, ErrorDelimiter) then s == Rejected(MissingPieceError)
            else s == Resolved(Failed(CapitalizeFirstLetter(body.message, true).value))
  {
    MissingPieceHasNoDelimiter();
  }

  /** An exception on the way: an empty message gives the retry hint, a message with
      `": "` its capitalisation, and any other message a rejection. */
  lemma ThrownMessage(m: string)
    ensures m == "" ==> Settle(Threw(m)) == Resolved(Failed(TryAgain))
    ensures m != "" && !Free(m, ErrorDelimiter)
            ==> Settle(Threw(m)) == Resolved(Failed(CapitalizeFirstLetter(Some(m), true).value))
    ensures m != "" && Free(m, ErrorDelimiter) ==> Settle(Threw(m)) == Rejected(MissingPieceError)
  {
    if m != "" && !Free(m, ErrorDelimiter) {
      NonEmptyErrorMode(m);
    }
  }

  lemma MissingPieceHasNoDelimiter()
    ensures Free(MissingPieceError, ErrorDelimiter)
  {
    NoColonNoDelimiter(MissingPieceError);
  }

  // ---------------------------------------------------------------------------
  // The cases of the tests

  /** White space only: no request, "Passkey is required". */
  lemma ExampleBlank(network: Outcome)
    ensures ValidateKey("  ", network) == Attempt(None, Resolved(Failed(PasskeyRequired)))
  {
    assert IsWhiteSpace(' ');
  }

  /** An injection attempt: no request, "Invalid characters detected". */
  lemma ExampleInjection(s: string, network: Outcome)
    requires s == "'; DROP TABLE users; --"
    ensures ValidateKey(s, network) == Attempt(None, Resolved(Failed(InvalidCharacters)))
  {
    assert LeadingWhiteSpace(s) == 0;
    assert UnsafeChar(Trim(s)[0]);
  }

  /** The network failure of the tests: "Network error" has no `": "`, so the code
      rejects where the test expects the error "Network error". */
  lemma ExampleNetworkError(m: string)
    requires m == "Network error"
    ensures Settle(Threw(m)) == Rejected(MissingPieceError)
  {
    NoColonNoDelimiter(m);
  }

  /** A failed response whose message has no `": "`: the tests expect the message as
      the error; the code rejects. */
  lemma ExampleCustomMessage(m: string)
    requires m == "Invalid key format"
    ensures Settle(Responded(Response(false, ValidateKeyResponse(Some(m), None)))) == Rejected(MissingPieceError)
  {
    NoColonNoDelimiter(m);
    MissingPieceHasNoDelimiter();
  }
}
