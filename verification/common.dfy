/** Values that may be absent: a SQL `null`, a JavaScript `undefined`, or a
    lookup that found nothing. */
module Common {

  datatype Option<+T> = None | Some(value: T) {

    /** The carried value, or `default` when there is none. */
    function GetOr(default: T): T {
      match this
      case Some(v) => v
      case None => default
    }
  }
}
