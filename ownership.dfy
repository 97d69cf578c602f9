/**
 * How the delete and fetch handlers fit together on one store: after a
 * successful delete the chirp can no longer be fetched, and only its
 * author can delete it.
 */
module Ownership {
  import opened Go
  import opened Store
  import opened Api
  import Bearer
  import Strings
  import ChirpsDelete
  import ChirpsGet

  /** Once a permitted deletion has succeeded, fetching the same id gives 404. */
  lemma DeleteThenGetNotFound(req: Request, parse: UuidParser, validateJwt: JwtValidator, secret: string,
                              chirps: map<Uuid, Chirp>, lookupFault: Option<string>, fetch: Request)
    requires fetch.chirpIdPath == req.chirpIdPath
    requires ChirpsDelete.DeleteChecks(req, parse, validateJwt, secret, chirps, lookupFault).Permit?
    ensures var v := ChirpsDelete.DeleteChecks(req, parse, validateJwt, secret, chirps, lookupFault);
      ChirpsGet.HandlerChirpsGet(fetch, parse, chirps - {v.id}, None).status == StatusNotFound
  {
    ChirpsDelete.PermitIffAuthorized(req, parse, validateJwt, secret, chirps, lookupFault);
  }

  /** Two requests for the same chirp that pass authentication as different users cannot both be permitted. */
  lemma AtMostOneOwner(r1: Request, r2: Request, parse: UuidParser, validateJwt: JwtValidator, secret: string,
                       chirps: map<Uuid, Chirp>)
    requires r1.chirpIdPath == r2.chirpIdPath
    requires Bearer.GetBearerToken(r1.header).err == Nil && Bearer.GetBearerToken(r2.header).err == Nil
    requires validateJwt(Bearer.GetBearerToken(r1.header).value, secret).Ok?
    requires validateJwt(Bearer.GetBearerToken(r2.header).value, secret).Ok?
    requires validateJwt(Bearer.GetBearerToken(r1.header).value, secret).value
          != validateJwt(Bearer.GetBearerToken(r2.header).value, secret).value
    ensures !(ChirpsDelete.DeleteChecks(r1, parse, validateJwt, secret, chirps, None).Permit?
              && ChirpsDelete.DeleteChecks(r2, parse, validateJwt, secret, chirps, None).Permit?)
  {
    ChirpsDelete.PermitIffAuthorized(r1, parse, validateJwt, secret, chirps, None);
    ChirpsDelete.PermitIffAuthorized(r2, parse, validateJwt, secret, chirps, None);
  }

  /**
   * User B, holding a valid token, tries to delete user A's chirp and gets
   * 403; A then deletes it and gets 204; a later fetch of it gets 404. Any
   * id parser and token validator that agree on those two users will do.
   */
  method EndToEnd(parse: UuidParser, validateJwt: JwtValidator, tokenA: string, tokenB: string)
      returns (byOther: Response, byOwner: Response, fetched: Response)
    requires parse("7") == Some(Uuid(7))
    requires tokenA != "" && Strings.Trimmed(tokenA) && tokenB != "" && Strings.Trimmed(tokenB)
    requires validateJwt(tokenA, "secret") == Ok(Uuid(1)) && validateJwt(tokenB, "secret") == Ok(Uuid(2))
    ensures byOther.status == StatusForbidden
    ensures byOwner.status == StatusNoContent
    ensures fetched.status == StatusNotFound
  {
    var chirpId := Uuid(7);
    var chirp := Chirp(chirpId, 100, 100, Uuid(1), "hello");
    var db := new ChirpStore(map[chirpId := chirp]);
    var cfg := ApiConfig(db, "secret");
    var asA := Request("7", map[], map[AuthorizationKey := [Bearer.BearerPrefix + tokenA]]);
    var asB := Request("7", map[], map[AuthorizationKey := [Bearer.BearerPrefix + tokenB]]);
    Bearer.RoundTrip(tokenA);
    Bearer.RoundTrip(tokenB);

    ChirpsDelete.NonOwnerIsForbidden(asB, parse, validateJwt, "secret", db.chirps, None);
    byOther := ChirpsDelete.HandlerChirpsDelete(cfg, asB, parse, validateJwt, None, None);
    ChirpsDelete.PermitIffAuthorized(asA, parse, validateJwt, "secret", db.chirps, None);
    byOwner := ChirpsDelete.HandlerChirpsDelete(cfg, asA, parse, validateJwt, None, None);
    assert db.chirps == map[chirpId := chirp] - {chirpId};
    fetched := ChirpsGet.HandlerChirpsGet(asA, parse, db.chirps, None);
  }
}
