/** Common value types of the downloader model: optional values, results and errors. */
module Wrappers {

  /** A byte of a file or of a response body. */
  type byte = b: int | 0 <= b < 256

  datatype Option<T> = None | Some(value: T)

  datatype Result<T> = Ok(value: T) | Err(error: Error)

  /** The errors a download task can return to its caller. */
  datatype Error =
    | ProxyUrl(proxy: string)                  // url.Parse rejected the configured proxy host
    | Transport(detail: string)                // a request could not be built, sent or answered
    | Status(status: string)                   // the probe was answered with neither 200 nor 206
    | FileSystem(path: string, detail: string) // creating, opening, seeking or reading a file failed
    | Closed(path: string)                     // a write or seek on a handle that is already closed
    | Read(detail: string)                     // reading a response body failed
    | IndexOutOfRange(index: int, length: int) // a Go runtime panic: a worker has no sink

  /** An injected failure: the operation number `at` of a series fails with `error`. */
  datatype Fault = Fault(at: nat, error: Error)
}
