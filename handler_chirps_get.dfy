/**
 * The two read handlers: `handlerChirpsGet` (`GET /api/chirps/{chirpID}`),
 * which maps the outcome of one lookup to a status, and
 * `handlerChirpsRetrieve` (`GET /api/chirps`), which lists all chirps or
 * one author's, copied from the fetched rows and sorted by creation time.
 */
module ChirpsGet {
  import opened Go
  import opened Store
  import opened Api
  import opened ChirpSort

  const BadAuthorId := "couldn't parse to uuid"
  const NoAuthorChirps := "couldn't retrieve the user's chirps"
  const NoChirps := "Couldn't retrieve chirps"

  const AuthorIdParam := "author_id"
  const SortParam := "sort"

  /** `handlerChirpsGet` over the store's contents `chirps`: 400, 404, or 200 with the row. */
  function HandlerChirpsGet(req: Request, parse: UuidParser, chirps: map<Uuid, Chirp>, lookupFault: Option<string>): (resp: Response)
    ensures resp.status in {StatusOK, StatusBadRequest, StatusNotFound}
  {
    var chirpId := parse(req.chirpIdPath);
    if chirpId.None? then ErrorResponse(StatusBadRequest, InvalidChirpId)
    else
      var dbChirp := Lookup(chirps, chirpId.value, lookupFault);
      if dbChirp.Failure? then ErrorResponse(StatusNotFound, NoChirp)
      else Response(StatusOK, OneChirp(dbChirp.value))
  }

  /**
   * The three outcomes of a fetch: 400 exactly for an id that does not
   * parse (whatever the store holds), 404 exactly for a parsed id the store
   * does not give back, and otherwise 200 with the stored row unchanged,
   * which is the chirp that was asked for.
   */
  lemma GetOutcomes(req: Request, parse: UuidParser, chirps: map<Uuid, Chirp>, lookupFault: Option<string>,
                    otherChirps: map<Uuid, Chirp>, otherFault: Option<string>)
    requires forall id :: id in chirps ==> chirps[id].id == id
    ensures var resp := HandlerChirpsGet(req, parse, chirps, lookupFault);
      var id := parse(req.chirpIdPath);
      && (resp.status == StatusBadRequest <==> id.None?)
      && (id.None? ==> resp == HandlerChirpsGet(req, parse, otherChirps, otherFault))
      && (resp.status == StatusNotFound <==> id.Some? && (id.value !in chirps || lookupFault.Some?))
      && (resp.status == StatusOK <==> id.Some? && id.value in chirps && lookupFault.None?)
      && (resp.status == StatusOK ==> resp.payload == OneChirp(chirps[id.value]) && resp.payload.chirp.id == id.value)
  {
  }

  /** Copies each fetched row into the response list, in order, fields unchanged. */
  method CopyRows(rows: seq<Chirp>) returns (chirps: seq<Chirp>)
    ensures chirps == rows
  {
    chirps := [];
    for k := 0 to |rows|
      invariant chirps == rows[..k]
    {
      chirps := chirps + [Chirp(rows[k].id, rows[k].createdAt, rows[k].updatedAt, rows[k].userId, rows[k].body)];
    }
  }

  /** The author filter `handlerChirpsRetrieve` applies: none for an empty `author_id`. */
  function AuthorFilter(authorId: string, parse: UuidParser): (r: Option<Uuid>)
    ensures authorId == "" ==> r.None?
    ensures authorId != "" ==> r == parse(authorId)
  {
    if authorId == "" then None else parse(authorId)
  }

  /**
   * `handlerChirpsRetrieve`. A non-empty `author_id` that does not parse and
   * a failing query give 500; otherwise the response lists every selected
   * row exactly once, sorted newest first for `sort=desc` and oldest first
   * for any other value.
   */
  method HandlerChirpsRetrieve(cfg: ApiConfig, req: Request, parse: UuidParser, queryFault: Option<string>)
    returns (resp: Response)
    requires cfg.db.Valid()
    ensures var s := FirstValue(req.query, AuthorIdParam);
      s != "" && parse(s).None? ==> resp == ErrorResponse(StatusInternalServerError, BadAuthorId)
    ensures var s := FirstValue(req.query, AuthorIdParam);
      !(s != "" && parse(s).None?) && queryFault.Some? ==>
        resp == ErrorResponse(StatusInternalServerError, if s != "" then NoAuthorChirps else NoChirps)
    ensures var s := FirstValue(req.query, AuthorIdParam);
      !(s != "" && parse(s).None?) && queryFault.None? ==>
        && resp.status == StatusOK && resp.payload.ChirpList?
        && Sorted(resp.payload.chirps, FirstValue(req.query, SortParam))
        && multiset(resp.payload.chirps) == multiset(Selection(cfg.db.chirps, AuthorFilter(s, parse)))
  {
    var s := FirstValue(req.query, AuthorIdParam);
    var sortOrder := FirstValue(req.query, SortParam);
    var chirps: seq<Chirp>;
    if s != "" {
      var uid := parse(s);
      if uid.None? {
        return ErrorResponse(StatusInternalServerError, BadAuthorId);
      }
      var authorChirps, err := cfg.db.GetChirpByAuthor(uid.value, queryFault);
      if err != Nil {
        return ErrorResponse(StatusInternalServerError, NoAuthorChirps);
      }
      chirps := CopyRows(authorChirps);
    } else {
      var dbChirps, err := cfg.db.GetChirps(queryFault);
      if err != Nil {
        return ErrorResponse(StatusInternalServerError, NoChirps);
      }
      chirps := CopyRows(dbChirps);
    }
    var a := new Chirp[|chirps|](k requires 0 <= k < |chirps| => chirps[k]);
    assert a[..] == chirps;
    SortSlice(a, sortOrder);
    resp := Response(StatusOK, ChirpList(a[..]));
  }

  /** A listed chirp is a stored row and, when an author was asked for, one of that author's. */
  lemma ListedChirpsAreStoredRows(m: map<Uuid, Chirp>, listed: seq<Chirp>, authorId: string, parse: UuidParser, c: Chirp)
    requires forall id :: id in m ==> m[id].id == id
    requires multiset(listed) == multiset(Selection(m, AuthorFilter(authorId, parse)))
    requires c in listed
    ensures c in m.Values && c.id in m && (authorId != "" ==> parse(authorId).Some? ==> c.userId == parse(authorId).value)
  {
    assert c in multiset(listed);
    SelectionMembers(m, AuthorFilter(authorId, parse), c);
    var id :| id in m && m[id] == c;
  }
}
