/** Small value types shared by the client model. */
module Common {

  datatype Option<+T> = None | Some(value: T)

  /** A modal information box shown to the user: its window title and its text.
      The model records that a box was shown and what it said, nothing else. */
  datatype Message = Message(title: string, text: string)

  function Min(a: int, b: int): (m: int)
  {
    if a <= b then a else b
  }
}
