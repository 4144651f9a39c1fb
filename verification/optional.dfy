/** A lookup that may find nothing: the model of an ORM `get` that raises
    `DoesNotExist`, or of a validation step that may fail. */
module Optional {

  datatype Option<+T> = None | Some(value: T)
}
