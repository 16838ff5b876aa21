/** Failure-carrying values used in place of Python's None and raised exceptions. */
module Results {

  datatype Option<+T> = None | Some(value: T)

  datatype Result<+R, +E> = Success(value: R) | Failure(error: E)
}

/** The part of FastAPI's HTTPException the service uses: a status code and a detail message. */
module Http {

  datatype HttpError = HttpError(status: int, detail: string)
}
