/**
 * `auth.GetBearerToken`: takes the access token out of the first
 * `Authorization` header value of a request, `Authorization: Bearer <token>`.
 */
module Bearer {
  import opened Go
  import opened Strings

  const BearerPrefix := "Bearer "

  const MissingHeader := "authorization header is missing"
  const NotBearerToken := "authorization header is not a bearer token"
  const EmptyToken := "bearer token is empty"

  /**
   * Three checks in order (missing value, wrong scheme, nothing after it);
   * every failure comes with the empty token, a success with a non-empty
   * token that has no surrounding spaces.
   */
  function GetBearerToken(headers: Values): (r: Outcome)
    ensures r.err != Nil ==> r.value == ""
    ensures r.err == Nil ==> r.value != "" && Trimmed(r.value)
  {
    var authHeader := FirstValue(headers, AuthorizationKey);
    if authHeader == "" then
      Outcome("", Error(MissingHeader))
    else if !HasPrefix(authHeader, BearerPrefix) then
      Outcome("", Error(NotBearerToken))
    else
      var token := TrimSpace(authHeader[|BearerPrefix|..]);
      if token == "" then Outcome("", Error(EmptyToken)) else Outcome(token, Nil)
  }

  /** The first check: an absent header, or an empty first value, and nothing else, is "missing". */
  lemma MissingIffEmptyValue(headers: Values)
    ensures GetBearerToken(headers).err == Error(MissingHeader)
        <==> FirstValue(headers, AuthorizationKey) == ""
  {
  }

  /** The second check: a non-empty value without the case-sensitive "Bearer " prefix. */
  lemma NotBearerIffNoPrefix(headers: Values)
    ensures var v := FirstValue(headers, AuthorizationKey);
      GetBearerToken(headers).err == Error(NotBearerToken) <==> v != "" && !HasPrefix(v, BearerPrefix)
  {
  }

  /** The third check: the prefix is followed by spaces only (or by nothing). */
  lemma EmptyIffBlankRemainder(headers: Values)
    ensures var v := FirstValue(headers, AuthorizationKey);
      (GetBearerToken(headers).err == Error(EmptyToken))
        <==> HasPrefix(v, BearerPrefix) && Blank(v[|BearerPrefix|..])
  {
    var v := FirstValue(headers, AuthorizationKey);
    if HasPrefix(v, BearerPrefix) {
      TrimSpaceEmptyIffBlank(v[|BearerPrefix|..]);
    }
  }

  /**
   * A success comes from a value of the form "Bearer " + spaces + token +
   * spaces; the lemma returns the two runs of spaces.
   */
  lemma SuccessShape(headers: Values) returns (p: string, q: string)
    requires GetBearerToken(headers).err == Nil
    ensures Blank(p) && Blank(q)
    ensures FirstValue(headers, AuthorizationKey) == BearerPrefix + p + GetBearerToken(headers).value + q
  {
    var v := FirstValue(headers, AuthorizationKey);
    var rest := v[|BearerPrefix|..];
    var t := TrimSpace(rest);
    assert GetBearerToken(headers).value == t;
    p, q := TrimSpaceParts(rest);
    SplitAt(v, |BearerPrefix|);
    Concat4(BearerPrefix, p, t, q);
  }

  /** The converse of `SuccessShape`: any such padding around a token yields that token. */
  lemma PaddedTokenAccepted(headers: Values, p: string, t: string, q: string)
    requires Blank(p) && Blank(q) && t != "" && Trimmed(t)
    requires FirstValue(headers, AuthorizationKey) == BearerPrefix + p + t + q
    ensures GetBearerToken(headers) == Outcome(t, Nil)
  {
    var v := BearerPrefix + p + t + q;
    assert v[..|BearerPrefix|] == BearerPrefix;
    assert v[|BearerPrefix|..] == p + t + q;
    TrimSpacePadded(p, t, q);
  }

  /** Round trip: the header "Bearer " + t gives back t, for every non-empty t without surrounding spaces. */
  lemma RoundTrip(t: string)
    requires t != "" && Trimmed(t)
    ensures GetBearerToken(map[AuthorizationKey := [BearerPrefix + t]]) == Outcome(t, Nil)
  {
    var headers := map[AuthorizationKey := [BearerPrefix + t]];
    assert BearerPrefix + t == BearerPrefix + "" + t + "";
    PaddedTokenAccepted(headers, "", t, "");
  }

  /** Only the first `Authorization` value is read: headers that agree on it agree on the result. */
  lemma ReadsOnlyFirstValue(h1: Values, h2: Values)
    requires FirstValue(h1, AuthorizationKey) == FirstValue(h2, AuthorizationKey)
    ensures GetBearerToken(h1) == GetBearerToken(h2)
  {
  }

  /** The scheme is matched with its trailing space: "Bearer" alone is not a bearer token. */
  lemma PrefixNeedsTrailingSpace()
    ensures GetBearerToken(map[AuthorizationKey := ["Bearer"]]) == Outcome("", Error(NotBearerToken))
    ensures GetBearerToken(map[AuthorizationKey := ["bearer abc"]]) == Outcome("", Error(NotBearerToken))
  {
    assert !HasPrefix("Bearer", BearerPrefix);
    assert "bearer abc"[..|BearerPrefix|] != BearerPrefix by { assert "bearer abc"[0] != BearerPrefix[0]; }
  }

  /** The four rows of the bearer-token table test. */
  lemma TableValid()
    ensures GetBearerToken(map[AuthorizationKey := ["Bearer valid_token"]]) == Outcome("valid_token", Nil)
  {
    assert Trimmed("valid_token");
    assert BearerPrefix + "valid_token" == "Bearer valid_token";
    RoundTrip("valid_token");
  }

  lemma TableMissing()
    ensures GetBearerToken(map["Content-Type" := ["application/json"]]) == Outcome("", Error(MissingHeader))
  {
  }

  lemma TableNoPrefix()
    ensures GetBearerToken(map[AuthorizationKey := ["InvalidTokenString"]]) == Outcome("", Error(NotBearerToken))
  {
    assert "InvalidTokenString"[..|BearerPrefix|] != BearerPrefix by { assert "InvalidTokenString"[0] != BearerPrefix[0]; }
  }

  lemma TableEmpty()
    ensures GetBearerToken(map[AuthorizationKey := ["Bearer "]]) == Outcome("", Error(EmptyToken))
  {
    var v := "Bearer ";
    assert HasPrefix(v, BearerPrefix) && v[|BearerPrefix|..] == [];
    assert TrimSpace([]) == [];
  }
}
