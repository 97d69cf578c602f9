/**
 * `handlerChirpsDelete`, `DELETE /api/chirps/{chirpID}`: the ownership
 * rule. The checks form a ladder with early returns (parse the id, take the
 * bearer token, validate it, look the chirp up, compare the requester with
 * the owner); only a request that passes all of them reaches the one
 * mutation of the store.
 */
module ChirpsDelete {
  import opened Go
  import opened Store
  import opened Api
  import Bearer

  const NoJwt := "Couldn't find JWT"
  const InvalidJwt := "Couldn't validate JWT"
  const NotOwner := "User is not authorized to delete the chirp"
  const DeleteFailed := "Couldn't delete chirp"

  /** Where the ladder ends: an early response, or permission to delete chirp `id`. */
  datatype Verdict = Refuse(response: Response) | Permit(id: Uuid)

  /** The checks before the deletion, in the handler's order, over the store's contents `chirps`. */
  function DeleteChecks(req: Request, parse: UuidParser, validateJwt: JwtValidator, secret: string,
                        chirps: map<Uuid, Chirp>, lookupFault: Option<string>): (v: Verdict)
    ensures v.Refuse? ==> v.response.status in {StatusBadRequest, StatusUnauthorized, StatusNotFound, StatusForbidden}
  {
    var chirpId := parse(req.chirpIdPath);
    if chirpId.None? then Refuse(ErrorResponse(StatusBadRequest, InvalidChirpId))
    else
      var token := Bearer.GetBearerToken(req.header);
      if token.err != Nil then Refuse(ErrorResponse(StatusUnauthorized, NoJwt))
      else
        var userId := validateJwt(token.value, secret);
        if userId.Failure? then Refuse(ErrorResponse(StatusUnauthorized, InvalidJwt))
        else
          var dbChirp := Lookup(chirps, chirpId.value, lookupFault);
          if dbChirp.Failure? then Refuse(ErrorResponse(StatusNotFound, NoChirp))
          else if userId.value != dbChirp.value.userId then Refuse(ErrorResponse(StatusForbidden, NotOwner))
          else Permit(chirpId.value)
  }

  /** The response after the ladder: a refusal as is; after a deletion, 500 if it failed and 204 otherwise. */
  function DeleteResponse(v: Verdict, deleteFault: Option<string>): (r: Response)
    ensures v.Refuse? ==> r == v.response
    ensures v.Permit? ==> (r.status == StatusNoContent <==> deleteFault.None?)
    ensures v.Permit? && deleteFault.Some? ==> r == ErrorResponse(StatusInternalServerError, DeleteFailed)
  {
    match v
    case Refuse(r) => r
    case Permit(_) =>
      if deleteFault.Some? then ErrorResponse(StatusInternalServerError, DeleteFailed)
      else Response(StatusNoContent, JsonString(""))
  }

  /** An id that does not parse gives 400 before any credential or the store is looked at. */
  lemma UnparsableIdIsBadRequest(req: Request, parse: UuidParser, validateJwt: JwtValidator, secret: string,
                                 chirps: map<Uuid, Chirp>, lookupFault: Option<string>)
    requires parse(req.chirpIdPath).None?
    ensures DeleteChecks(req, parse, validateJwt, secret, chirps, lookupFault)
         == Refuse(ErrorResponse(StatusBadRequest, InvalidChirpId))
  {
  }

  /** A parsable id without a usable bearer token gives 401, whatever the store holds. */
  lemma MissingTokenIsUnauthorized(req: Request, parse: UuidParser, validateJwt: JwtValidator, secret: string,
                                   chirps: map<Uuid, Chirp>, lookupFault: Option<string>)
    requires parse(req.chirpIdPath).Some?
    requires Bearer.GetBearerToken(req.header).err != Nil
    ensures DeleteChecks(req, parse, validateJwt, secret, chirps, lookupFault)
         == Refuse(ErrorResponse(StatusUnauthorized, NoJwt))
  {
  }

  /**
   * A token that does not validate gives 401, whatever the store holds: an
   * unauthenticated caller learns nothing about which chirps exist.
   */
  lemma InvalidTokenIsUnauthorized(req: Request, parse: UuidParser, validateJwt: JwtValidator, secret: string,
                                   chirps: map<Uuid, Chirp>, lookupFault: Option<string>,
                                   otherChirps: map<Uuid, Chirp>, otherFault: Option<string>)
    requires parse(req.chirpIdPath).Some?
    requires Bearer.GetBearerToken(req.header).err == Nil
    requires validateJwt(Bearer.GetBearerToken(req.header).value, secret).Failure?
    ensures DeleteChecks(req, parse, validateJwt, secret, chirps, lookupFault)
         == Refuse(ErrorResponse(StatusUnauthorized, InvalidJwt))
         == DeleteChecks(req, parse, validateJwt, secret, otherChirps, otherFault)
  {
  }

  /** An authenticated request for a chirp the store does not give back gives 404; existence comes before ownership. */
  lemma AbsentChirpIsNotFound(req: Request, parse: UuidParser, validateJwt: JwtValidator, secret: string,
                              chirps: map<Uuid, Chirp>, lookupFault: Option<string>)
    requires parse(req.chirpIdPath).Some?
    requires Bearer.GetBearerToken(req.header).err == Nil
    requires validateJwt(Bearer.GetBearerToken(req.header).value, secret).Ok?
    requires parse(req.chirpIdPath).value !in chirps || lookupFault.Some?
    ensures DeleteChecks(req, parse, validateJwt, secret, chirps, lookupFault)
         == Refuse(ErrorResponse(StatusNotFound, NoChirp))
  {
  }

  /** An authenticated request by someone other than the chirp's author gives 403. */
  lemma NonOwnerIsForbidden(req: Request, parse: UuidParser, validateJwt: JwtValidator, secret: string,
                            chirps: map<Uuid, Chirp>, lookupFault: Option<string>)
    requires parse(req.chirpIdPath).Some? && parse(req.chirpIdPath).value in chirps && lookupFault.None?
    requires Bearer.GetBearerToken(req.header).err == Nil
    requires validateJwt(Bearer.GetBearerToken(req.header).value, secret).Ok?
    requires validateJwt(Bearer.GetBearerToken(req.header).value, secret).value
          != chirps[parse(req.chirpIdPath).value].userId
    ensures DeleteChecks(req, parse, validateJwt, secret, chirps, lookupFault)
         == Refuse(ErrorResponse(StatusForbidden, NotOwner))
  {
  }

  /**
   * The ladder permits a deletion exactly when every check passes: the id
   * parses, the token is present and valid, the chirp exists and the token's
   * user is its author. The permitted id is the requested one.
   */
  lemma PermitIffAuthorized(req: Request, parse: UuidParser, validateJwt: JwtValidator, secret: string,
                            chirps: map<Uuid, Chirp>, lookupFault: Option<string>)
    ensures var v := DeleteChecks(req, parse, validateJwt, secret, chirps, lookupFault);
      var id := parse(req.chirpIdPath);
      var token := Bearer.GetBearerToken(req.header);
      v.Permit? <==>
        && id.Some? && token.err == Nil && validateJwt(token.value, secret).Ok?
        && id.value in chirps && lookupFault.None?
        && chirps[id.value].userId == validateJwt(token.value, secret).value
    ensures var v := DeleteChecks(req, parse, validateJwt, secret, chirps, lookupFault);
      v.Permit? ==> parse(req.chirpIdPath) == Some(v.id)
  {
  }

  /**
   * `handlerChirpsDelete`. The store changes only on a permitted request
   * whose deletion succeeds, and then loses exactly the permitted chirp.
   */
  method HandlerChirpsDelete(cfg: ApiConfig, req: Request, parse: UuidParser, validateJwt: JwtValidator,
                             lookupFault: Option<string>, deleteFault: Option<string>) returns (resp: Response)
    requires cfg.db.Valid()
    modifies cfg.db
    ensures cfg.db.Valid()
    ensures var v := DeleteChecks(req, parse, validateJwt, cfg.secret, old(cfg.db.chirps), lookupFault);
      && resp == DeleteResponse(v, deleteFault)
      && cfg.db.chirps == if v.Permit? && deleteFault.None? then old(cfg.db.chirps) - {v.id} else old(cfg.db.chirps)
  {
    var chirpId := parse(req.chirpIdPath);
    if chirpId.None? {
      return ErrorResponse(StatusBadRequest, InvalidChirpId);
    }
    var token := Bearer.GetBearerToken(req.header);
    if token.err != Nil {
      return ErrorResponse(StatusUnauthorized, NoJwt);
    }
    var userId := validateJwt(token.value, cfg.secret);
    if userId.Failure? {
      return ErrorResponse(StatusUnauthorized, InvalidJwt);
    }
    var dbChirp := Lookup(cfg.db.chirps, chirpId.value, lookupFault);
    if dbChirp.Failure? {
      return ErrorResponse(StatusNotFound, NoChirp);
    }
    if userId.value != dbChirp.value.userId {
      return ErrorResponse(StatusForbidden, NotOwner);
    }
    var deleted := cfg.db.DeleteChirp(chirpId.value, deleteFault);
    if deleted != Nil {
      return ErrorResponse(StatusInternalServerError, DeleteFailed);
    }
    resp := Response(StatusNoContent, JsonString(""));
  }

  /** A 204 means the requester was the author of a chirp that existed and is now gone. */
  lemma NoContentMeansOwnerDeleted(req: Request, parse: UuidParser, validateJwt: JwtValidator, secret: string,
                                   chirps: map<Uuid, Chirp>, lookupFault: Option<string>, deleteFault: Option<string>)
    ensures var v := DeleteChecks(req, parse, validateJwt, secret, chirps, lookupFault);
      DeleteResponse(v, deleteFault).status == StatusNoContent ==>
        && v.Permit? && deleteFault.None? && v.id in chirps
        && Bearer.GetBearerToken(req.header).err == Nil
        && validateJwt(Bearer.GetBearerToken(req.header).value, secret) == Ok(chirps[v.id].userId)
  {
  }

  /**
   * The responses the handler as written sends: after a failed deletion it
   * writes the 500 error and then, with no `return` in between, the 204 too;
   * on every other path it writes one response.
   */
  function DeleteWritesAsWritten(v: Verdict, deleteFault: Option<string>): (r: seq<Response>)
    ensures |r| == if v.Permit? && deleteFault.Some? then 2 else 1
    ensures r[|r| - 1] == if v.Permit? then Response(StatusNoContent, JsonString("")) else v.response
  {
    match v
    case Refuse(r) => [r]
    case Permit(_) =>
      (if deleteFault.Some? then [ErrorResponse(StatusInternalServerError, DeleteFailed)] else [])
      + [Response(StatusNoContent, JsonString(""))]
  }

  /**
   * The as-written handler writes two responses exactly when a permitted
   * deletion fails; the first of its writes is always the one
   * `DeleteResponse` (the single response the model uses) gives.
   */
  lemma FallThroughWritesTwice(v: Verdict, deleteFault: Option<string>)
    ensures |DeleteWritesAsWritten(v, deleteFault)| == 2 <==> v.Permit? && deleteFault.Some?
    ensures |DeleteWritesAsWritten(v, deleteFault)| in {1, 2}
    ensures DeleteWritesAsWritten(v, deleteFault)[0] == DeleteResponse(v, deleteFault)
    ensures v.Permit? && deleteFault.Some? ==>
      DeleteWritesAsWritten(v, deleteFault)[1].status == StatusNoContent
      && DeleteResponse(v, deleteFault).status == StatusInternalServerError
  {
  }
}
