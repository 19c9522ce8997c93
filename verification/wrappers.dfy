/** Failure-compatible datatypes standing in for Rust's `Option` and
    `anyhow::Result`, plus the error values the server can produce. */
module Wrappers {

  datatype Option<+T> = None | Some(value: T) {

    /** The wrapped value, or `default` when there is none (`unwrap_or`). */
    function GetOr(default: T): T {
      match this
      case Some(v) => v
      case None => default
    }
  }

  datatype Result<+R, +E> = Success(value: R) | Failure(error: E) {

    predicate IsFailure() {
      Failure?
    }

    function PropagateFailure<U>(): Result<U, E>
      requires Failure?
    {
      Failure(error)
    }

    function Extract(): R
      requires Success?
    {
      value
    }
  }

  /** Every `anyhow::bail!` / `anyhow!` of the core, as a value. Handler
      failures carry whatever the handler reported. */
  datatype Error =
    | NoMethod
    | NoUri
    | NoProtocol
    | UnsupportedProtocol
    | ExtraValues
    | InvalidMethod(verb: string)
    | NoRequestLine
    | HandlerFailed(reason: string)
    | NoErrorHandler
    | ErrorHandlerAlreadyRegistered
  {
    /** The message text the source attaches to each error. */
    function Message(): string {
      match this
      case NoMethod => "No method found"
      case NoUri => "No URI found"
      case NoProtocol => "No protocol found"
      case UnsupportedProtocol => "Server can only work with HTTP/1.1"
      case ExtraValues => "Invalid request line: extra values after parts"
      case InvalidMethod(m) => "Invalid method " + m
      case NoRequestLine => "No request line found"
      case HandlerFailed(reason) => reason
      case NoErrorHandler => "No handler for 404 errors"
      case ErrorHandlerAlreadyRegistered => "Error handler already registered"
    }
  }
}
