/** Optional values and the error values that the transport and the router report. */
module Outcomes {

  datatype Option<+T> = None | Some(value: T)

  datatype Result<+T> = Success(value: T) | Failure(error: Error)

  /** Every error the modelled code can produce or pass on. */
  datatype Error =
    | EOF              // the connection has no more data (conn.Read fails)
    | WriteRefused     // conn.Write fails
    | TooManyRoutes    // NewRoute was given more than 32767 names
    | RouteNotFound    // RouteCT.Write was given an unregistered name
    | FunNotFound      // GetFun found no handler for an id
    | Panic            // a Go runtime panic (make with a negative length, calling a nil handler)
    | App(code: int)   // an error returned by an application handler or middleware
}
