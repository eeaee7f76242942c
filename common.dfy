/** Value types shared by the models of auth.py and app.py. */
module Common {

  /** A nullable column or an optional argument: Python's `None` is `None`. */
  datatype Option<T> = None | Some(value: T)

  /** Primary and foreign keys are UUID strings (`db.String(36)`). */
  type Id = string

  /** A `DateTime` column. Clock reads are inputs to the model, never computed. */
  type Time = nat
}
