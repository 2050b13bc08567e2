/** A nullable value: the model of C#'s `int?`. */
module Wrappers {

  datatype Option<+T> = None | Some(value: T) {

    /** C#'s null-coalescing `this ?? other`: this value when present, otherwise `other`. */
    function OrElse(other: Option<T>): (r: Option<T>)
      ensures Some? ==> r == this
      ensures None? ==> r == other
      ensures r.None? <==> None? && other.None?
    {
      match this
      case Some(_) => this
      case None => other
    }
  }
}
