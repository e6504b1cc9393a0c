/** Small datatypes shared by every module of the proxy model. */
module Common {

  /** An optional value: a missing attribute, header or query parameter. */
  datatype Option<+T> = None | Some(value: T) {
    function GetOr(default: T): T {
      match this
      case Some(v) => v
      case None => default
    }
  }

  /** The two iterations of the proxy engine that the model covers:
      Legacy is main/src/app.py, Current is main/kine-proxy-new/src/app.py. */
  datatype Edition = Legacy | Current
}
