/** Values shared by the backend and the browser pages. */
module Common {

  /** A value that may be absent: a missing JSON key, an unset storage entry. */
  datatype Option<T> = None | Some(value: T)

  /** A notification shown by the pages (title, description, destructive styling). */
  datatype Toast = Toast(title: string, description: string, destructive: bool)

  /** JavaScript's `a || fallback` for an optional string: absent and "" are falsy. */
  function OrElse(v: Option<string>, fallback: string): (r: string)
    ensures v.Some? && v.value != "" ==> r == v.value
    ensures v == None || v == Some("") ==> r == fallback
  {
    match v
    case Some(s) => if s != "" then s else fallback
    case None => fallback
  }

  function Max(a: int, b: int): (r: int)
    ensures r >= a && r >= b && (r == a || r == b)
  {
    if a >= b then a else b
  }

  function Min(a: int, b: int): (r: int)
    ensures r <= a && r <= b && (r == a || r == b)
  {
    if a <= b then a else b
  }
}
