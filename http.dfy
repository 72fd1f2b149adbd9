/** The error FastAPI turns into an HTTP error response: `HTTPException(status_code, detail)`. */
module Http {
  datatype HttpError = HttpError(status: int, detail: string)
}
