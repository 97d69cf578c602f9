/**
 * What the chirp handlers share: the request as they read it, the response
 * as a status code and a payload, the configuration they use, and the two
 * collaborators this model leaves abstract (`uuid.Parse` and
 * `auth.ValidateJWT`).
 */
module Api {
  import opened Go
  import opened Store

  const StatusOK := 200
  const StatusNoContent := 204
  const StatusBadRequest := 400
  const StatusUnauthorized := 401
  const StatusForbidden := 403
  const StatusNotFound := 404
  const StatusInternalServerError := 500

  /** The error texts both chirp-id handlers send. */
  const InvalidChirpId := "Invalid chirp ID"
  const NoChirp := "Couldn't get chirp"

  /** `r.PathValue("chirpID")`, the URL query and the headers of a request. */
  datatype Request = Request(chirpIdPath: string, query: Values, header: Values)

  /** The JSON body: `{"error": ...}`, one chirp, a list of chirps, or a JSON string. */
  datatype Payload = ErrorMessage(msg: string) | OneChirp(chirp: Chirp) | ChirpList(chirps: seq<Chirp>) | JsonString(s: string)

  datatype Response = Response(status: int, payload: Payload)

  /** `respondWithError`. */
  function ErrorResponse(status: int, msg: string): (r: Response)
    ensures r.status == status && r.payload.ErrorMessage? && r.payload.msg == msg
  {
    Response(status, ErrorMessage(msg))
  }

  /** The fields of `apiConfig` these handlers use. */
  datatype ApiConfig = ApiConfig(db: ChirpStore, secret: string)

  /** `uuid.Parse`: a partial parser, left abstract. */
  type UuidParser = string -> Option<Uuid>

  /** `auth.ValidateJWT(token, secret)`: the user id the token names, or an error; left abstract. */
  type JwtValidator = (string, string) -> Result<Uuid>
}
