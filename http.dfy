/** The HTTP exchanges of a task, at their interface: the requests the task sends and
    what comes back. The client, the network and the server are not modelled; the
    answers are inputs. */
module Http {
  import opened Wrappers

  /** A request as the server receives it. `host` is the Host header override, "" when
      the URL's own host is sent. Header keys are kept as given (Go canonicalises them). */
  datatype Request = Request(verb: string, url: string, header: map<string, string>, host: string)

  /** A probe answer: the status code and line, the response headers (keys in Go's
      canonical form) and the Content-Length (-1 when unknown). */
  datatype Response = Response(statusCode: int, status: string, header: map<string, string>, contentLength: int)

  datatype ProbeOutcome = ProbeFailed(error: Error) | Answered(response: Response)

  const StatusOK: int := 200
  const StatusPartialContent: int := 206

  /** http.Header.Get: the value stored under the key, "" when it is absent. */
  function HeaderGet(h: map<string, string>, key: string): string
  {
    if key in h then h[key] else ""
  }
}
