/** Shared vocabulary: document ids, optional values and the HTTP status codes the controllers answer with. */
module Common {

  /** A MongoDB ObjectId. Ids are opaque; `.equals` on two ids is plain equality. */
  datatype Id = Id(raw: nat)

  datatype Option<+T> = None | Some(value: T)

  const StatusOk: int := 200
  const StatusCreated: int := 201
  const StatusBadRequest: int := 400
  const StatusUnauthorized: int := 401
  const StatusForbidden: int := 403
  const StatusNotFound: int := 404
  const StatusServerError: int := 500
}
