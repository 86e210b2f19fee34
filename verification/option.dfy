/** The optional value Kotlin writes as a nullable type `T?`. */
module Options {
  datatype Option<T> = None | Some(value: T) {
    /** `this ?: fallback`. */
    function GetOr(fallback: T): (r: T)
      ensures Some? ==> r == value
      ensures None? ==> r == fallback
    {
      match this
      case Some(v) => v
      case None => fallback
    }
  }
}
