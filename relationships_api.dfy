/**
 * The API extraction script's response handling: `validate_json_response` checks that a
 * parsed reply is a dict holding the six required keys, and `extract_relationship` keeps
 * asking the chat API until a reply parses and validates. Each round of the loop is an
 * `Attempt` from an oracle: a reply's content, an `APIError`, or any other exception,
 * which the loop does not catch. `json.loads` is a parameter.
 */
module RelationshipsApi {
  import opened Text
  import opened JsonValue
  import opened Wrappers

  /** REQUIRED_KEYS */
  const RequiredKeys: set<string> :=
    {"Entity 1", "Entity 2", "Relationship Summary", "Confidence Score", "Relevant Context", "Threat Assessment"}

  /** `d.keys()` as a set. */
  function KeySet(ms: seq<Member>): set<string> {
    set i | 0 <= i < |ms| :: ms[i].key
  }

  /** `REQUIRED_KEYS - d.keys()` */
  function MissingKeys(ms: seq<Member>): set<string> {
    RequiredKeys - KeySet(ms)
  }

  /** `validate_json_response`: not a dict, or a dict with a missing key, is rejected. */
  function ValidateJsonResponse(v: Json): (ok: bool)
    ensures ok <==> v.JObj? && forall k :: k in RequiredKeys ==> HasKey(v.members, k)
  {
    if !v.JObj? then false
    else
      MissingKeysEmpty(v.members);
      MissingKeys(v.members) == {}
  }

  /** No key is missing exactly when every required key is present. */
  lemma MissingKeysEmpty(ms: seq<Member>)
    ensures MissingKeys(ms) == {} <==> forall k :: k in RequiredKeys ==> HasKey(ms, k)
  {
    if MissingKeys(ms) == {} {
      forall k | k in RequiredKeys ensures HasKey(ms, k) {
        assert k !in MissingKeys(ms);
        var i :| 0 <= i < |ms| && ms[i].key == k;
      }
    } else {
      var k :| k in MissingKeys(ms);
      assert k in RequiredKeys && k !in KeySet(ms);
    }
  }

  /** What one round of the retry loop gets back from the API. */
  datatype Attempt =
    | Completion(content: string)   // the reply's message content
    | ApiError(message: string)     // `openai.error.APIError`, caught
    | Raises(message: string)       // any other exception, not caught

  /** How the loop ends within the attempts given: it returns a validated value, an
      uncaught exception escapes, or it is still retrying when the attempts run out. */
  datatype Outcome = Returned(value: Json) | Raised(message: string) | Pending

  /** The reply parses, after `strip()`, and the value passes validation. */
  predicate Accepts(a: Attempt, parse: string -> Result<Json, string>) {
    a.Completion? && parse(Strip(a.content)).Ok? && ValidateJsonResponse(parse(Strip(a.content)).value)
  }

  /** The round ends in another round: an API error, a `JSONDecodeError`, or a value that
      fails validation. */
  predicate Retries(a: Attempt, parse: string -> Result<Json, string>) {
    a.ApiError? || (a.Completion? && !Accepts(a, parse))
  }

  /** The loop's outcome over the attempts, one round per attempt. */
  function RetryOutcome(attempts: seq<Attempt>, parse: string -> Result<Json, string>): Outcome
  {
    if attempts == [] then Pending
    else match attempts[0]
      case Raises(m) => Raised(m)
      case ApiError(_) => RetryOutcome(attempts[1..], parse)
      case Completion(c) =>
        match parse(Strip(c))
        case Err(_) => RetryOutcome(attempts[1..], parse)
        case Ok(v) => if ValidateJsonResponse(v) then Returned(v) else RetryOutcome(attempts[1..], parse)
  }

  /** `extract_relationship`: the `while True` loop, run over the attempts. */
  method ExtractRelationship(attempts: seq<Attempt>, parse: string -> Result<Json, string>) returns (outcome: Outcome)
    ensures outcome == RetryOutcome(attempts, parse)
    ensures outcome.Returned? ==> ValidateJsonResponse(outcome.value)
  {
    var i := 0;
    while i < |attempts|
      invariant 0 <= i <= |attempts|
      invariant RetryOutcome(attempts, parse) == RetryOutcome(attempts[i..], parse)
    {
      assert attempts[i..][1..] == attempts[i + 1..];
      match attempts[i] {
        case Raises(m) =>
          return Raised(m);
        case ApiError(_) =>
        case Completion(c) =>
          var raw := Strip(c);
          var parsed := parse(raw);
          if parsed.Ok? && ValidateJsonResponse(parsed.value) {
            return Returned(parsed.value);
          }
      }
      i := i + 1;
    }
    return Pending;
  }

  /** The index of the first round that does not retry, or the number of attempts when
      every round retries. */
  function FirstDecisive(attempts: seq<Attempt>, parse: string -> Result<Json, string>): (k: nat)
    ensures k <= |attempts|
    ensures forall j :: 0 <= j < k ==> Retries(attempts[j], parse)
    ensures k < |attempts| ==> !Retries(attempts[k], parse)
  {
    if attempts == [] || !Retries(attempts[0], parse) then 0
    else 1 + FirstDecisive(attempts[1..], parse)
  }

  /** The first round that does not retry decides the outcome: an accepted reply is
      returned as parsed, an uncaught exception escapes; with no such round the loop is
      still running. */
  lemma {:induction false} RetryOutcomeFirstDecisive(attempts: seq<Attempt>, parse: string -> Result<Json, string>)
    ensures var k := FirstDecisive(attempts, parse);
      RetryOutcome(attempts, parse) ==
        if k == |attempts| then Pending
        else if attempts[k].Raises? then Raised(attempts[k].message)
        else Returned(parse(Strip(attempts[k].content)).value)
    ensures var k := FirstDecisive(attempts, parse);
      k < |attempts| && attempts[k].Completion? ==> Accepts(attempts[k], parse)
  {
    if attempts != [] && Retries(attempts[0], parse) {
      RetryOutcomeFirstDecisive(attempts[1..], parse);
    }
  }
}
