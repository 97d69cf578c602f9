/**
 * `auth.GetAPIKey`: takes a key out of the first `Authorization` header
 * value, `Authorization: ApiKey <key>`. Unlike the bearer parser, every
 * failure returns the same sentinel error and nothing is trimmed.
 */
module ApiKey {
  import opened Go
  import opened Strings

  const ApiKeyPrefix := "ApiKey "

  /** The single sentinel `ErrInvalidAuthorizationHeader`. */
  const ErrInvalidAuthorizationHeader := Error("invalid Authorization header format")

  /** Fails with the sentinel and an empty key, or succeeds with a non-empty key and no error. */
  function GetAPIKey(headers: Values): (r: Outcome)
    ensures r == Outcome("", ErrInvalidAuthorizationHeader) || (r.err == Nil && r.value != "")
  {
    var authHeader := FirstValue(headers, AuthorizationKey);
    if authHeader == "" then
      Outcome("", ErrInvalidAuthorizationHeader)
    else if !HasPrefix(authHeader, ApiKeyPrefix) then
      Outcome("", ErrInvalidAuthorizationHeader)
    else
      var apiKey := TrimPrefix(authHeader, ApiKeyPrefix);
      if apiKey == "" then Outcome("", ErrInvalidAuthorizationHeader) else Outcome(apiKey, Nil)
  }

  /**
   * The three failures (empty value, wrong prefix, nothing after the prefix)
   * and nothing else give the sentinel, and they cannot be told apart.
   */
  lemma FailureIff(headers: Values)
    ensures var v := FirstValue(headers, AuthorizationKey);
      (GetAPIKey(headers).err != Nil)
        <==> (v == "" || !HasPrefix(v, ApiKeyPrefix) || v == ApiKeyPrefix)
    ensures GetAPIKey(headers).err != Nil ==> GetAPIKey(headers) == Outcome("", ErrInvalidAuthorizationHeader)
  {
    var v := FirstValue(headers, AuthorizationKey);
    if HasPrefix(v, ApiKeyPrefix) {
      assert v == ApiKeyPrefix + TrimPrefix(v, ApiKeyPrefix);
    }
  }

  /** A success is the prefix followed by exactly the returned key, spaces included. */
  lemma SuccessShape(headers: Values)
    ensures var r := GetAPIKey(headers);
      r.err == Nil ==> r.value != "" && FirstValue(headers, AuthorizationKey) == ApiKeyPrefix + r.value
  {
  }

  /** Round trip: the header "ApiKey " + k gives back exactly k, for every non-empty k. */
  lemma RoundTrip(k: string)
    requires k != ""
    ensures GetAPIKey(map[AuthorizationKey := [ApiKeyPrefix + k]]) == Outcome(k, Nil)
  {
    var v := ApiKeyPrefix + k;
    assert v[..|ApiKeyPrefix|] == ApiKeyPrefix;
    assert v[|ApiKeyPrefix|..] == k;
  }

  /** No trimming: spaces around the key, and a doubled separator, stay in the key. */
  lemma KeepsSpaces()
    ensures GetAPIKey(map[AuthorizationKey := ["ApiKey  key "]]) == Outcome(" key ", Nil)
  {
    assert ApiKeyPrefix + " key " == "ApiKey  key ";
    RoundTrip(" key ");
  }

  /** Only the first `Authorization` value is read. */
  lemma ReadsOnlyFirstValue(h1: Values, h2: Values)
    requires FirstValue(h1, AuthorizationKey) == FirstValue(h2, AuthorizationKey)
    ensures GetAPIKey(h1) == GetAPIKey(h2)
  {
  }
}
